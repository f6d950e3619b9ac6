# Covert in Dafny

A model of the parts of Covert, a secrets manager, that have algorithms or protocols of
their own, with proofs about them. `dafny verify dfyconfig.toml` checks everything.

Code that changes things step by step is a class or a method with loops; its contract says
what the new state is, in terms of a function or predicate about which the lemmas then
speak. What interleaves (writers, revocations, the sleeping worker) is a state machine whose
steps are the single statements of the code, and the lemmas are about all its runs.
Statements on SQLite are atomic steps on maps of rows, with the declared constraints.

**Scoped SQL** (`SqlAst`, `SqlEval`, `SqlScope`, `SqlMeaning`, `SqlStatements`,
`SqlReferences`, `SqlIsolation`, `SqlSchema`, `SqlText`, `SqlSyntax`, `SqlTextPass`,
`SqlGlued`, `SqlRewriter`, on top of `Strings`). Each mount stores its tables under a prefix, and its SQL is rewritten: pass
one prefixes tables, aliases and common table expressions in the syntax tree and collects
the names; pass two patches the qualifiers in the printed text. `SqlEval` gives the fragment
a meaning. Running a rewritten statement or script is running the original on the mount's
own tables, and nothing that another mount can see changes. `SqlReferences` and
`SqlIsolation` say which tables any rewritten statement, inside the fragment or not, names
and touches, and `SqlSchema` what the tables it creates reference. The text pass is exactly a renaming of the qualifiers as long as none of them
is glued to an opening parenthesis and no literal holds what looks like a qualifier.

**Leases** (`Leases`, `LeaseProtocol`, `LeaseWorker`, `LeaseRefinement`, `LeaseWakeup`). `LeaseProtocol`
interleaves registrations, renewals and revocations, each acting on an old copy of its row,
and proves how long a lease can live (and that the bound is attained) and when it may
disappear. `LeaseWorker` is the revocation loop with the clock stopped: its result is, lease
by lease, that of asking one backend again and again, whatever the batches.
`LeaseRefinement` shows its operations to be runs of the protocol. `LeaseWakeup` is the way
the worker goes to sleep.

**Versioned secrets** (`KvStore`, `KvWriters`). The four statements of an addition, alone
and interleaved; soft deletion, recovery, destruction, pruning.

**Mounts, namespaces, policies** (`Mounts` and `MountRemoval` on top of `Like`,
`Namespaces`, `LeaseTrail`, `NamespaceRemoval`, `Policies`). Longest-prefix routing with
SQLite's LIKE, whose patterns may meet, storage prefixes, the removal of a mount with its
leases, the tree of namespaces and its paths, recursive removal with all leases and tables,
delegation of policies and authorisation by path.

**Migrations and unsealing** (`Migrator`, `Unseal`). Exactly-once migration, stated with the
meaning of scoped scripts; the collection of key shares.

Some properties one would expect are false of the code. There the lemmas give an input
that shows it and the exact condition under which the property holds:

- Subqueries where the traversal does not go are left unscoped: `SELECT EXISTS (...)`
  reads a table outside the mount (`HiddenSubqueryEscapes`). The tables that a rewritten
  statement names are all under the prefix if and only if no table outside it is named in
  such a place (`NamedTablesUnderIff`), and then it touches no others
  (`IsolatedUnlessHidden`).
- The reference of a column that ALTER TABLE adds is not rewritten, so it never means a table
  of the mount (`AddedReferenceEscapes`); those of CREATE TABLE mean what they should if and
  only if no table of the server that they name begins with the prefix (`CreatedAsMeantIff`).
- A qualifier right after an opening parenthesis is not renamed: `SELECT COUNT(u.id) FROM
  users AS u` comes out broken (`GluedQualifierBreaks`, `ExampleText`). The text pass is the
  renaming if and only if every lexeme survives it (`TextPassRenamesStatement`).
- The worker can miss the expiry of a lease that falls between its two clock reads
  (`LostWakeup`), or one that a renewal has brought forward (`ShortenedLease`). It sleeps
  safely throughout a run if and only if every step of the run is timely
  (`SafeThroughoutIff`, `SafeIffPunctual`).
- A slow writer of a secret can succeed and lose its version at once
  (`SlowWriterLosesItsVersion`, `OwnPruneKeepsIff`); with a limit of 0 every version is lost
  (`AddedIsReadable`), and a destroyed one can come back under its old number
  (`ZeroLimitRevives`), which it cannot if and only if no addition to its key has had that
  limit (`DestroyedForeverIff`).
- A mount path with `_`, or an existing one with `%`, lets a new mount take over requests of
  another (`WildcardMountDisturbs`, `PercentMountIsDisturbed`). Routing is stable if and only
  if there is no request that the new mount takes over (`StableIffNothingTakenOver`); without
  percent signs that is to say that it meets no mount that is no longer than it
  (`StableIffMeetsNone`), with them meeting none is enough (`StableIfMeetsNone`) but not
  necessary (`CoveredMeetingIsStable`).
- A mount at `s_s/` or at `%/` passes every check and matches requests to the system backend
  (`WildcardCompetesWithSystem`, `PercentCompetesWithSystem`), as exactly those paths do whose
  pattern meets `sys/%` (`SystemCompetesIff`); without percent signs these are the paths that
  agree with `sys/` as far as both go (`PlainCompetesIff`).
- Removing a mount revokes the leases of mounts nested in it (`RemovalReachesNestedMount`),
  and no others than its own if and only if no other path of the namespace is LIKE its path
  and more (`OnlyOwnLeasesIff`). A removal that a lease stops leaves the mount without a
  backend, and whatever is mounted, removed and configured afterwards it answers no request
  and cannot be removed until the router is loaded again (`StoppedRemovalIsFinal`).
- A namespace that names itself as its parent gets past the constraints of its table, and the
  rows are then no tree (`NamespaceRepo.Create`).
- A namespace is found whatever the first component of the path is (`FoundByFullPathIff`).
- A policy pattern with two stars at its end lets more be delegated than is held
  (`InnerStarEscalates`, `CoversIff`), and so does a derived policy whose name is known: it is
  not looked at (`KnownNameEscalates`, `KnownNameWitness`).
- A token is accepted in a parent namespace when the request path spells the rest of the
  token's namespace (`ParentAccepted`, `AcceptedWithinIff`).
- A failed initialisation can be repeated, then or after any restarts, if and only if nothing
  was wrong but its parameters (`FailedInitializationRepeatableIff`); and shares stored before
  a restart spoil one request (`RestartSpoilsOneRequest`).

## Model

| member | source | states |
|---|---|---|
| SqlMeaning.QueryPreserved | covert-storage/src/scoped_queries.rs:135-304 | For every query whose names are collected and which has no subquery outside the traversal, every correlated environment and every database: the scoped query on the stored tables evaluates to what the original evaluates to on the tables under the prefix (aliases, derived tables, nested joins, CTEs, set operations, correlated subqueries) |
| SqlMeaning.ExprPreserved | covert-storage/src/scoped_queries.rs:114-133 | The same for an expression evaluated over a group of rows, including scalar subqueries under binary operators and ALL |
| SqlMeaning.FactorPreserved | covert-storage/src/scoped_queries.rs:223-292 | A scoped table factor yields the frame of the original with only its column tags renamed |
| SqlMeaning.CtesPreserved | covert-storage/src/scoped_queries.rs:196-221 | Common table expressions, added one by one, stay in step under the prefix, so later ones and the body see the same tables |
| SqlMeaning.SetExprPreserved | covert-storage/src/scoped_queries.rs:135-194 | The same for selections, set operations, parenthesised queries and value lists |
| SqlStatements.ScopedStatementMeaning | covert-storage/src/scoped_queries.rs:306-435 | A scoped INSERT, UPDATE, DELETE, CREATE, DROP, ALTER or query fails exactly if the original fails on the mount's tables; otherwise it gives the same result, leaves under the prefix what the original leaves, and changes nothing else |
| SqlStatements.ScopedScriptMeaning | covert-storage/src/scoped_queries.rs:50-84 | The same for whole scripts, whose statements share one growing set of collected names |
| SqlStatements.MountIsolation | covert-storage/src/scoped_queries.rs:86-111 | A scoped statement depends on nothing but the tables under its prefix and changes nothing visible under any prefix that is neither shorter nor longer with the same beginning |
| SqlStatements.ScopableIsSupported | covert-storage/src/scoped_queries.rs:114-133 | What pass one collects is enough: the fragment is exactly the statements without hidden subqueries whose foreign qualifiers do not carry the prefix |
| SqlStatements.HiddenSubqueryEscapes | covert-storage/src/scoped_queries.rs:128-130 | A subquery under EXISTS is not rewritten: the statement then reads a table outside the mount and not the mount's own |
| SqlReferences.NamedTablesUnderIff | covert-storage/src/scoped_queries.rs:114-435 | For every statement that pass one accepts: all tables that the rewritten statement names are under the prefix if and only if all that the original names where the traversal does not go are |
| SqlIsolation.StatementFramed | covert-storage/src/scoped_queries.rs:306-435 | A statement that names only tables under a prefix has the same outcome on any two databases that agree there, and changes nothing elsewhere |
| SqlIsolation.IsolatedUnlessHidden | covert-storage/src/scoped_queries.rs:306-435 | So does every rewritten statement, whatever its qualifiers and aliases, whose original names no table outside the prefix where the traversal does not go |
| SqlSchema.AcceptedIff | covert-storage/src/scoped_queries.rs:306-435 | Pass one refuses exactly unknown statements, table renames, and references to tables of the server that restrict, each with its error |
| SqlSchema.ScriptAcceptedIff | covert-storage/src/scoped_queries.rs:56-59 | A script is rewritten if and only if each of its statements is |
| SqlSchema.CreatedAsMeantIff | covert-storage/src/scoped_queries.rs:337-377 | Every reference of a created table, constraint or column, means what its author meant, an own table or one of the server, with both actions kept, if and only if no such table of the server begins with the prefix |
| SqlSchema.ScriptSchema | covert-storage/src/scoped_queries.rs:50-84 | After a rewritten script the tables under the prefix reference, table by table, what the script means them to |
| SqlSchema.SchemaOutside | covert-storage/src/scoped_queries.rs:306-435 | No rewritten statement changes what tables outside the prefix reference |
| SqlSchema.AddedReferenceEscapes | covert-storage/src/scoped_queries.rs:387-396 | A reference in ADD COLUMN is stored as it was written, which is never what it meant |
| SqlRewriter.GetTablesInExpr | covert-storage/src/scoped_queries.rs:114-133 | Pass one on an expression gives the prefixed expression and adds exactly the names mentioned where the traversal goes |
| SqlRewriter.GetTablesInSetExpr | covert-storage/src/scoped_queries.rs:135-194 | The same for the body of a query |
| SqlRewriter.GetTablesInQuery | covert-storage/src/scoped_queries.rs:196-221 | The same for a query with its common table expressions |
| SqlRewriter.GetTablesInFactor | covert-storage/src/scoped_queries.rs:223-292 | The same for tables, derived tables and nested joins, aliases included |
| SqlRewriter.GetTablesInTables | covert-storage/src/scoped_queries.rs:294-304 | The same for a table with its joins, whose conditions are not entered |
| SqlRewriter.GetTablesInStatement | covert-storage/src/scoped_queries.rs:306-435 | Pass one on a statement: the prefixed statement or the source's error, and on success exactly the mentioned names added |
| SqlRewriter.GetTablesInCreate | covert-storage/src/scoped_queries.rs:337-377 | The same for CREATE TABLE with its query, constraints and column references |
| SqlRewriter.HandleForeignKey | covert-storage/src/scoped_queries.rs:86-111 | A reference fails exactly if it is to a `__SYSTEM__` table and restricts; a table of the server loses the marker and nothing else, every other table gets the prefix and nothing else, and both actions stay |
| SqlRewriter.HandleConstraints | covert-storage/src/scoped_queries.rs:353-363 | Fails exactly if some constraint is refused; otherwise every constraint, in order, is scoped as its own key asks |
| SqlRewriter.HandleColumns | covert-storage/src/scoped_queries.rs:364-376 | Fails exactly if some column reference is refused; otherwise every column keeps its name, and its reference, if any, is scoped as its own key asks |
| SqlRewriter.RewriteItem | covert-storage/src/scoped_queries.rs:66-75 | One item of the text: the first collected name, in whatever order, that it refers to replaces every occurrence; without one it stays |
| SqlRewriter.RewriteText | covert-storage/src/scoped_queries.rs:63-77 | The items of the text rewritten one by one and joined again |
| SqlRewriter.ScopeStatement | covert-storage/src/scoped_queries.rs:58-79 | Both passes on statement k of a script, with the names collected so far |
| SqlRewriter.PrefixScript | covert-storage/src/scoped_queries.rs:50-84 | The rewritten texts of all statements, joined with semicolons, or the error of the first statement that pass one refuses |
| SqlRewriter.ScopedText | covert-storage/src/scoped_queries.rs:50-84 | End to end: where every lexeme survives the text pass, the text that comes out for a statement is the printed form of the scoped statement whose meaning is proved, whatever order the names were iterated in |
| SqlTextPass.RewritesUnique | covert-storage/src/scoped_queries.rs:66-75 | An item has one outcome, whatever the order of the set of names, unless one name refers to what another refers to |
| SqlTextPass.TextPassOrderIndependent | covert-storage/src/scoped_queries.rs:63-77 | Then the rewritten text does not depend on the iteration order of the set either; names with white space may be anything |
| SqlTextPass.OrderIndependentIff | covert-storage/src/scoped_queries.rs:63-77 | For every set of names: every text has one outcome if and only if no collected name without white space, followed by a dot, begins another one followed by a dot, which names without dots never do |
| SqlTextPass.LexemeRewritten | covert-storage/src/scoped_queries.rs:66-75 | The item of a qualified column is rewritten exactly to its renamed lexeme, or stays if its qualifier is glued to something before it |
| SqlTextPass.OutcomeIff | covert-storage/src/scoped_queries.rs:63-77 | A lexeme, of however many words, comes out renamed if and only if it survives: its collected qualifier is not glued, its white space is single blanks, and none of the words of a literal begins with a collected name and a dot |
| SqlTextPass.TextPassIsRenaming | covert-storage/src/scoped_queries.rs:61-77 | The text pass on printed lexemes, literals with blanks included, is the renaming of the collected qualifiers if and only if every lexeme survives |
| SqlTextPass.TextPassRenamesStatement | covert-storage/src/scoped_queries.rs:61-77 | The same for every printed statement: the text pass is the renaming in the syntax tree, if and only if every lexeme survives |
| SqlGlued.GluedQualifierStays | covert-storage/src/scoped_queries.rs:66-75 | For SELECT COUNT(alias.id) FROM table AS alias, whatever the names, the only text that comes out is that of pass one |
| SqlGlued.GluedQualifierBreaks | covert-storage/src/scoped_queries.rs:61-77 | That text is of a statement that fails where the original and the one with its qualifier renamed succeed |
| SqlGlued.ExampleText | covert-storage/src/scoped_queries.rs:61-77 | With users, u and the prefix foo_ its words are SELECT COUNT(u.id) FROM foo_users AS foo_u |
| SqlTextPass.PrintRenamedStatement | covert-storage/src/scoped_queries.rs:61-64 | Printing after renaming qualifiers in the tree is renaming the lexemes of the printed statement |
| SqlSyntax.StatementPrinted | covert-storage/src/scoped_queries.rs:61-64 | The printed lexemes of a statement, put together, are the characters of its concrete syntax, every clause and list in its place: nothing is lost, added or moved |
| SqlRewriter.ScopeAllNames | covert-storage/src/scoped_queries.rs:66-69 | Every collected name starts with the prefix, so the slice behind it is always valid |
| Leases.CalculateTtl | covert-types/src/ttl.rs:11-39 | now plus the result is the requested or default expiry, cut at issue time plus the maximal lifetime, and never before now |
| Leases.LeaseRepo.Create | covert-server/src/repos/lease.rs:29-53 | The table gains exactly the new row |
| Leases.LeaseRepo.Lookup | covert-server/src/repos/lease.rs:181-192 | The row of the key, if there is one |
| Leases.LeaseRepo.Pull | covert-server/src/repos/lease.rs:56-70 | At most count (and 100) distinct due leases, earliest first; fewer only if no other is due; no lease left out expires before one taken |
| Leases.LeaseRepo.Peek | covert-server/src/repos/lease.rs:73-82 | Nothing exactly on an empty table, else a lease that expires no later than any |
| Leases.LeaseRepo.IncrementFailedRevocationAttempts | covert-server/src/repos/lease.rs:85-113 | Counts one more failure and sets the expiry of that row only; fails exactly if it is gone |
| Leases.LeaseRepo.Renew | covert-server/src/repos/lease.rs:116-143 | Sets expiry and renewal time of that row only; fails exactly if it is gone |
| Leases.LeaseRepo.Delete | covert-server/src/repos/lease.rs:146-154 | Removes exactly that row and tells whether it was there |
| Leases.LeaseRepo.ListByMountPrefix | covert-server/src/repos/lease.rs:166-178 | Exactly the leases of the namespace whose mount path is LIKE the prefix |
| LeaseProtocol.LifetimeBound | covert-server/src/expiration_manager/mod.rs:214-332 | In every interleaving, whatever lifetimes backends return and whatever old copies are written back: expires_at <= max(clock, issued_at + max_lease_ttl + delta) + failed_attempts * retry_timeout, where delta bounds the gap between two clock reads |
| LeaseProtocol.BoundAttained | covert-server/src/expiration_manager/mod.rs:295-318 | The bound is the best there is: for every delta and every number of failures below the maximum a run ends exactly on it |
| LeaseProtocol.JustifiedDeletion | covert-server/src/expiration_manager/mod.rs:404-448 | A lease that was stored and is gone had an accepted revoke request, or at least max_retries distinct requests for it failed |
| LeaseProtocol.StepRevokeStore | covert-server/src/expiration_manager/mod.rs:406-444 | The write after a backend's answer, made from an old copy, keeps lifetime bound, failure counts and justified deletion |
| LeaseProtocol.StepRenewStore | covert-server/src/expiration_manager/mod.rs:307-319 | So does the write of a renewal |
| LeaseProtocol.StepRegister | covert-server/src/layer/lease_registration.rs:82-98 | A new lease starts within the bound |
| LeaseProtocol.StepKeepsInv | covert-server/src/expiration_manager/mod.rs:80-165 | Every step of registrations, revocations and renewals, successful or not, keeps the invariant |
| LeaseRefinement.RegistrationRun | covert-server/src/layer/lease_registration.rs:77-98 | A registered lease lives for the requested time, or the default, cut at the maximal life, from the time of its issue, without failures |
| LeaseRefinement.RenewalRefines | covert-server/src/expiration_manager/mod.rs:214-332 | What a renewal leaves in the table is what a run of the protocol leaves, with the grant of the backend and the three clock reads |
| LeaseRefinement.RenewalRun | covert-server/src/expiration_manager/mod.rs:291-319 | Such a run sets the expiry to the gap between the last two clock reads plus the grant, cut at the maximal life, and only on that row |
| LeaseRefinement.RevocationRun | covert-server/src/expiration_manager/mod.rs:404-448 | So is a revocation: the row goes on acceptance or with the last retry, else it counts one failure and is put off |
| LeaseWorker.ExpirationManager.RevokeLeaseEntry | covert-server/src/expiration_manager/mod.rs:404-448 | An accepted or last request deletes the row; any other failure counts and puts the copy's expiry off by the retry timeout |
| LeaseWorker.ExpirationManager.Register | covert-server/src/expiration_manager/mod.rs:80-85 | The lease is stored and the worker notified |
| LeaseWorker.ExpirationManager.RevokeLeasesByMountPrefix | covert-server/src/expiration_manager/mod.rs:88-120 | Every lease of the namespace whose mount path is LIKE the prefix is asked about once, from the copy read at the start: accepted ones come back and are gone, failed ones are put off or given up, all others stay |
| LeaseWorker.ExpirationManager.RenewLeaseEntry | covert-server/src/expiration_manager/mod.rs:214-332 | The backend is asked for what the request, or the default, and the maximal life allow; what it grants, cut at the maximal life, is the life from the second clock read, and the gap to the third comes on top; nothing else of the row and no other row changes; in each error case nothing changes |
| LeaseWorker.RenewalBound | covert-server/src/expiration_manager/mod.rs:295-309 | However much the backend grants, the new expiry exceeds the maximal life by no more than the gap between the last two clock reads, or is the time of the last one |
| LeaseWorker.RevokedAllOneMore | covert-server/src/expiration_manager/mod.rs:99-104 | Revocations of distinct leases made from old copies add up in any order |
| LeaseWorker.ExpirationManager.RevokeBatch | covert-server/src/expiration_manager/mod.rs:389-395 | Each lease of the batch is asked about once, and a batch that is not empty strictly lowers the budget of requests |
| LeaseWorker.ExpirationManager.Drain | covert-server/src/expiration_manager/mod.rs:336-396 | With the clock stopped the loop ends with nothing due; every lease ends as if its backend alone had been asked again and again, with exactly that many requests, independently of batches and of the other leases |
| LeaseWorker.SettledWithinRetries | covert-server/src/expiration_manager/mod.rs:421-441 | A lease gets at most max_retries minus its failures requests (one if none are left); it survives only after as many failures and put-offs as requests, and leaves only accepted or with its retries used up |
| LeaseWorker.BudgetShrinks | covert-server/src/expiration_manager/mod.rs:424-441 | Every request lowers the sum of the remaining requests over the stored leases |
| LeaseWakeup.NeverSleepsPastADueLease | covert-server/src/expiration_manager/mod.rs:356-387 | In every run whose two clock reads agree and whose expiries are never brought forward, a sleeping worker has a notification on its way, or an empty store, or a wake-up no later than every expiry |
| LeaseWakeup.DueLeaseWakes | covert-server/src/expiration_manager/mod.rs:372-386 | Such a worker can be woken when a lease is due, at once or after a registration under way has announced itself |
| LeaseWakeup.TimelyIff | covert-server/src/expiration_manager/mod.rs:365-387 | A step leaves a worker that sleeps safely sleeping safely if and only if it is timely: it goes to sleep for the earliest lease before that has expired, and no expiry is brought before the wake-up, unless a notification is pending or the store is empty |
| LeaseWakeup.SafeThroughoutIff | covert-server/src/expiration_manager/mod.rs:356-387 | Over all runs: the worker sleeps safely in every state of a run if and only if every step of the run is timely |
| LeaseWakeup.SafeIffPunctual | covert-server/src/expiration_manager/mod.rs:365-370 | In every run that brings no expiry forward, with any gaps between the clock reads, it does so if and only if it never goes to sleep after the earliest lease it knows has expired, unless a notification is pending or the store is empty |
| LeaseWakeup.ShortenedLease | covert-server/src/expiration_manager/mod.rs:307-319 | A run in which a renewal shortens a lease unannounced and the worker sleeps past it |
| LeaseWakeup.LostWakeup | covert-server/src/expiration_manager/mod.rs:359-369 | A run in which the worker sleeps for good past a due lease |
| KvStore.Repo.VersionMetadata | backend/covert-kv/src/store/secrets.rs:39-49 | Minimum and maximum of the versions of the key, 0 and 0 if it has none |
| KvStore.Repo.SoftDelete | backend/covert-kv/src/store/secrets.rs:52-79 | Marks exactly the requested versions of the key that exist and returns the others in order |
| KvStore.Repo.Recover | backend/covert-kv/src/store/secrets.rs:82-109 | Unmarks exactly the requested versions that exist and are not destroyed and returns the others in order |
| KvStore.Repo.HardDelete | backend/covert-kv/src/store/secrets.rs:112-141 | Destroys exactly the requested versions that exist and returns the others in order |
| KvStore.Repo.Insert | backend/covert-kv/src/store/secrets.rs:144-161 | Adds the version, or is refused by the primary key and changes nothing |
| KvStore.Repo.PruneOldVersions | backend/covert-kv/src/store/secrets.rs:164-177 | Removes exactly the versions of the key that are max or more behind its newest; every row left is as it was |
| KvStore.Repo.LoadConfig | backend/covert-kv/src/store/config.rs:18-31 | The stored limit, or 10, which is then stored |
| KvStore.Repo.AddSecret | backend/covert-kv/src/create_secret.rs:17-61 | Alone, an addition always succeeds with the version after the newest and reports the versions left; only versions of the key that have left the window go, and every other row is as it was |
| KvStore.Repo.ReadSecret | backend/covert-kv/src/create_secret.rs:64-105 | The value of the requested or newest version unless it is deleted or destroyed; an error exactly if there is no such version |
| KvStore.MissingExactly | backend/covert-kv/src/store/secrets.rs:72-75 | The returned list holds each absent version exactly as often as it was asked for, and no other |
| KvStore.ReportsAppend | backend/covert-kv/src/store/secrets.rs:52-141 | The reports of deletions and recoveries are made version by version, in the order of the request |
| KvStore.ReportsOne | backend/covert-kv/src/store/secrets.rs:72-105 | For one version: a deletion reports it exactly if it has no row, a recovery exactly if it has none or a destroyed one |
| KvStore.UnrecoverableAfterSoftDelete | backend/covert-kv/src/store/secrets.rs:102-105 | Soft deletion does not change what can be recovered; without destroyed versions only the absent ones cannot |
| KvStore.RecoverUndoesSoftDelete | backend/covert-kv/src/store/secrets.rs:52-109 | Recovering what was soft-deleted restores the store if and only if each of the versions had been as deleted as it was destroyed |
| KvStore.ReadersView | backend/covert-kv/src/create_secret.rs:96-102 | A reader sees nothing of a soft-deleted version, its value again after recovery, and nothing ever of a destroyed one |
| KvStore.AddedIsReadable | backend/covert-kv/src/create_secret.rs:22-39 | The added secret can be read, as the newest, if and only if the limit keeps at least one version |
| KvStore.AddedKeeps | backend/covert-kv/src/create_secret.rs:22-39 | After an addition the rows of all keys are the old ones but for the new version and those out of the window |
| KvStore.HistoryOfVersion | backend/covert-kv/src/create_secret.rs:17-105 | In every history whose limits for the key keep something, the n-th value added to it is there if and only if it has stayed in the window, and then it is what a reader gets unless a hard deletion since has named it or the last soft deletion or recovery to name it was a deletion |
| KvStore.OnlyAddedVersions | backend/covert-kv/src/create_secret.rs:25-34 | And every version that is there is the n-th that was added |
| KvStore.LiveVersionsContiguous | backend/covert-kv/src/create_secret.rs:22-39 | In every history of additions with changing limits of at least 1, deletions, recoveries and destructions, the live versions form one interval ending at the newest, no longer than the limit right after an addition |
| KvStore.DestroyedStaysDestroyed | backend/covert-kv/src/store/secrets.rs:112-141 | After any history whose additions to its key keep something, a version that was destroyed is still destroyed and without value, or has no row |
| KvStore.DestroyedForeverIff | backend/covert-kv/src/create_secret.rs:22-39 | From no point of a history on can additions that keep something make a destroyed version readable, if and only if no addition of the history to its key has had a limit of 0 |
| KvStore.ZeroLimitRevives | backend/covert-kv/src/store/secrets.rs:164-177 | A history with a limit of 0 after which a destroyed version number holds a readable secret |
| KvStore.HistoriesKeepCheck | backend/covert-kv/migrations/2022-12-27-init.sql:9-14 | In every reachable store a secret has no value if and only if it is destroyed |
| KvWriters.NewestVersionsLive | backend/covert-kv/src/create_secret.rs:22-39 | In every interleaving of the statements of concurrent additions the newest max_versions versions are live |
| KvWriters.QuietStoreHoldsTheWindow | backend/covert-kv/src/create_secret.rs:22-39 | When no addition is between insert and prune, and none has failed there since the last prune, exactly those versions are live |
| KvWriters.NewestNeverDecreases | backend/covert-kv/src/store/secrets.rs:164-177 | The newest version never decreases along a run |
| KvWriters.OwnPruneKeepsIff | backend/covert-kv/src/create_secret.rs:33-39 | After a writer's prune its own version is there if and only if it is still within the window, whoever else has pruned in between |
| KvWriters.SlowWriterLosesItsVersion | backend/covert-kv/src/create_secret.rs:22-39 | A run in which every statement of a slow writer succeeds and its version is gone |
| KvWriters.PruneIsPruned | backend/covert-kv/src/store/secrets.rs:164-177 | The prune step of the machine is the prune statement of the store |
| Mounts.MountRepo.Create | covert-server/src/repos/mount.rs:67-86 | Stores the mount exactly if no constraint of the table refuses it |
| Mounts.MountRepo.GetByPath | covert-server/src/repos/mount.rs:137-149 | The mount at exactly that path of the namespace |
| Mounts.MountRepo.SetConfig | covert-server/src/repos/mount.rs:89-119 | Changes the configuration of the mount at that path and nothing else; fails exactly if there is none |
| Mounts.MountRepo.LongestPrefix | covert-server/src/repos/mount.rs:152-168 | A mount of the namespace whose path, as a LIKE prefix, matches and is longest among those that do; nothing exactly if none matches |
| Mounts.MountRepo.RemoveByPath | covert-server/src/repos/mount.rs:171-179 | Removes exactly the mount at that path, and tells whether there was one |
| Mounts.Router.Route | covert-server/src/router.rs:40-108 | System paths go to the system backend, others to a longest match of the namespace that has a backend; mount path and handed-on path make up the request path where the one begins the other to the letter, else the whole path is handed on; each error in its case |
| Mounts.Context.Mount | covert-server/src/system/mount.rs:228-291 | Each check refuses exactly what it should, in the order of the source; the row is stored exactly if checks and constraints allow it; the backend is registered as soon as the checks pass; every stored mount keeps having passed them |
| Mounts.Context.RemoveMount | covert-server/src/system/mount.rs:160-186 | The part after the revocations: succeeds exactly for a routed, non-system mount without leases left; then removes that row, exactly its backend, and the tables the lookup selects; a removal that a lease stops removes the backend only, any other failure nothing |
| Mounts.Context.UpdateMount | covert-server/src/system/mount.rs:119-136 | Changes the configuration of the mount at the path and nothing else, routing included; fails exactly if there is none |
| MountRemoval.RemoveMount | covert-server/src/system/mount.rs:139-189 | The whole removal: the leases under the path are revoked as their backends answer, and the mount is removed exactly if it is routed, no system mount and none of its own leases is left, with its backend and the tables its lookup selects; no lease loses its mount |
| MountRemoval.OnlyOwnLeasesIff | covert-server/src/repos/lease.rs:166-178 | Whatever leases there are, only those of the mount itself are asked about, if and only if no other mount of the namespace has a path that is LIKE the path and more |
| MountRemoval.RemovalReachesNestedMount | covert-server/src/system/mount.rs:157-159 | A mount put above another one: removing it revokes a lease of the other |
| MountRemoval.UnroutedForGood | covert-server/src/router.rs:114-130 | In every history of mounts, removals and configuration updates a mount without a backend keeps its row, its path and its variant, answers no request and cannot be removed |
| MountRemoval.StoppedRemovalIsFinal | covert-server/src/system/mount.rs:157-163 | Such a mount is what a removal that a lease stops leaves behind, for good |
| Mounts.LookupSelectsOwnTables | covert-server/src/helpers/sqlite.rs:10-25 | Of all tables named after some mount's prefix, the LIKE lookup, wildcards and cases included, selects exactly those of its own mount |
| Mounts.SelectedAreOwn | covert-server/src/system/mount.rs:178-186 | In a database of server tables and mount tables the tables dropped are exactly those under the mount's prefix |
| Mounts.PrefixFree | covert-server/src/system/mount.rs:293-307 | No storage prefix is a prefix of that of another mount |
| Mounts.LookupSparesServerTables | covert-server/src/helpers/sqlite.rs:18-20 | The lookup never selects a table whose name does not begin with covert |
| Mounts.MountKeepsRouting | covert-server/src/system/mount.rs:251-257 | Among mounts without percent signs, a mount without wildcards that passes the checks never changes which mounts may serve a request already served |
| Mounts.StableIffNothingTakenOver | covert-server/src/repos/mount.rs:157-161 | Whatever wildcards there are: a new mount leaves all served requests alone if and only if there is none that it matches while nothing longer does |
| Mounts.StableIfMeetsNone | covert-server/src/repos/mount.rs:157-161 | Whatever wildcards there are: it does if its pattern meets that of no mount of its namespace that is no longer than it |
| Mounts.StableIffMeetsNone | covert-server/src/repos/mount.rs:157-161 | Without percent signs: if and only if |
| Mounts.CoveredMeetingIsStable | covert-server/src/repos/mount.rs:157-161 | With percent signs not: a new mount that meets another and, behind a longer one, disturbs nothing |
| Mounts.PercentMountIsDisturbed | covert-server/src/system/mount.rs:251-257 | An existing path with a percent sign, and a plain one that passes all checks and takes over its requests |
| Mounts.WildcardMountDisturbs | covert-server/src/system/mount.rs:251-257 | A path with `_` that passes all checks and changes the routing of an existing mount |
| Mounts.ServedByOne | covert-server/src/repos/mount.rs:157-161 | Without wildcards the longest match is unique |
| Mounts.SystemNeverCompetes | covert-server/src/router.rs:42-52 | No stored mount whose path has no wildcard matches a path that goes to the system backend |
| Mounts.SystemCompetesIff | covert-server/src/router.rs:42-52 | For every path, whatever wildcards it has: it matches some request to the system backend if and only if its pattern meets that of the system path |
| Mounts.PlainCompetesIff | covert-server/src/router.rs:42-52 | Without percent signs: if and only if it agrees with the system path as far as both go |
| Mounts.WildcardCompetesWithSystem | covert-server/src/system/mount.rs:242-248 | A path with `_` that passes all checks and matches a request to the system backend |
| Mounts.PercentCompetesWithSystem | covert-server/src/system/mount.rs:242-248 | A path with a percent sign that does, though it does not agree with the system path |
| Namespaces.NamespaceRepo.Create | covert-server/src/repos/namespace.rs:34-46 | Stores the namespace exactly if the constraints allow it, and keeps the tree a tree if and only if the stored one does not name itself as its parent |
| Namespaces.NamespaceRepo.Delete | covert-server/src/repos/namespace.rs:59-68 | Fails exactly on a child namespace that still has children or mounts; deletes exactly a namespace that exists and has a parent |
| Namespaces.NamespaceRepo.FindByPath | covert-server/src/repos/namespace.rs:71-97 | Answers with a namespace the joined query selects, with nothing exactly if it selects none or the path is empty |
| Namespaces.NamespaceRepo.FindParents | covert-server/src/repos/namespace.rs:100-127 | The walk to the root ends and gives the namespace and its ancestors in order |
| Namespaces.NamespaceRepo.GetFullPath | covert-server/src/repos/namespace.rs:130-139 | The names from the root down, joined with slashes; nothing for an unknown id |
| Namespaces.NamespaceRepo.List | covert-server/src/repos/namespace.rs:142-150 | Exactly the children, each once |
| Namespaces.FoundIff | covert-server/src/repos/namespace.rs:71-97 | A namespace is found by a path if and only if its full path is that path with its first component replaced by root |
| Namespaces.PathRoundTrip | covert-server/src/repos/namespace.rs:71-139 | The full path of a namespace, written out and split again, finds that namespace and no other |
| Namespaces.FoundByFullPathIff | covert-server/src/repos/namespace.rs:84-97 | The path a namespace was found by is its full path if and only if it begins with root |
| Namespaces.FullPathInjective | covert-server/migrations/encrypted/20221229_init.sql:7-21 | Under the constraints two namespaces never have the same full path |
| Namespaces.PrefixMeansUnder | covert-server/src/repos/namespace.rs:100-139 | A namespace whose full path begins with that of another lies in its subtree |
| LeaseTrail.SurvivesAsksIff | covert-server/src/expiration_manager/mod.rs:421-441 | A lease survives n revoke requests if and only if all of them fail and do not use up its retries |
| LeaseTrail.OneMoreRemoval | covert-server/src/expiration_manager/mod.rs:88-120 | Removing the mounts of a namespace one after another asks about each lease once for every mount whose path its own is LIKE, and earlier failures count |
| LeaseTrail.OwnGoneIff | covert-server/src/system/namespace.rs:94-98 | When it comes to a mount in the order of the listing, its own leases are gone if and only if none survives the requests made for it and for the mounts listed before it |
| Mounts.MountRepo.List | covert-server/src/repos/mount.rs:122-133 | The mounts of the namespace, each once, in order of path |
| NamespaceRemoval.Context.DeleteNamespace | covert-server/src/system/namespace.rs:83-107 | Ends on every tree; succeeds if and only if the namespace exists, is not the root and every mount of its subtree is routed, no system mount and has no lease that survives the requests made up to its removal; then exactly the subtree, its mounts, their backends, the tables their lookups select and all leases of its namespaces are gone; on failure nothing outside the subtree is touched |
| NamespaceRemoval.Context.DeleteSubtree | covert-server/src/system/namespace.rs:83-107 | The same for each call of the recursion, in the state it finds |
| NamespaceRemoval.Context.DeleteRow | covert-server/src/repos/namespace.rs:59-68 | Once children and mounts are gone RESTRICT does not refuse the deletion of the row |
| NamespaceRemoval.Context.RemoveMounts | covert-server/src/system/namespace.rs:94-98 | Removes exactly the mounts of the namespace and all its leases, up to the first that cannot be removed |
| NamespaceRemoval.SubtreeSplits | covert-server/src/system/namespace.rs:88-92 | A subtree is its root and the disjoint subtrees of the children, so removing those leaves the root childless |
| Policies.CoversIff | covert-types/src/policy.rs:127-137 | A path policy that authorises another one's pattern as a path allows all that one allows, if and only if it is not the same pattern with one more star |
| Policies.BatchAcceptedIff | covert-types/src/policy.rs:39-53 | A batch is accepted if and only if every entry whose policy has a new name has all its operations and its pattern within one entry that is held |
| Policies.DelegationSound | covert-types/src/policy.rs:39-53 | When stars are only last and equal names mean equal policies, an accepted batch of derived policies allows no request that the policies do not allow |
| Policies.InnerStarEscalates | covert-types/src/policy.rs:127-137 | A batch with an inner star that is accepted and allows more than is held |
| Policies.KnownNameEscalates | covert-types/src/policy.rs:39-53 | Whatever is held and whatever is wanted: under the name of a policy that is held the batch is accepted and allows all that is wanted |
| Policies.KnownNameWitness | covert-types/src/policy.rs:39-53 | Such a batch, from a policy that allows nothing |
| Policies.IsAuthorized | covert-server/src/layer/auth_service.rs:87-127 | Accepts exactly if the storage is unsealed, there is a token, and a policy of the first policy's namespace, put under that namespace's path path by path, allows the operation on the request's full path |
| Policies.AcceptedIff | covert-server/src/layer/auth_service.rs:87-127 | A request is accepted if and only if an entry of a policy of the first one's namespace lists the operation and its path, under the prefix, is the full path of the request or, before the star at its end, begins it |
| Policies.UnlistedOperationRefused | covert-types/src/policy.rs:127-137 | An operation that no entry lists is refused on every path |
| Policies.AcceptedNamesNamespace | covert-server/src/layer/auth_service.rs:102-124 | An accepted request spells the token's namespace component by component, in its namespace and, if that is too short, in its path |
| Policies.AcceptedWithinIff | covert-server/src/layer/auth_service.rs:102-124 | An accepted request is to the token's namespace or to one below it if and only if it names at least as many components |
| Policies.AcceptedReachesSubtree | covert-server/src/layer/auth_service.rs:102-124 | In terms of the tree: an accepted request with enough components that resolves to a namespace resolves to one in the subtree of the token's namespace |
| Policies.SiblingRefused | covert-server/src/layer/auth_service.rs:107-124 | A request to a sibling namespace is refused, however alike the names begin |
| Policies.ParentAccepted | covert-server/src/layer/auth_service.rs:107-124 | A request to the parent that spells the namespace in its path is accepted |
| Migrator.Database.Migrate | covert-storage/src/migrator.rs:62-124 | A run continues after the recorded versions, stops only at a script that cannot be rewritten, executed or committed, records the descriptions of exactly those before, leaves all other records, and succeeds exactly if it reaches the end |
| Migrator.Database.MigrateOne | covert-storage/src/migrator.rs:85-120 | One script in its transaction: record and effect together, or neither |
| Migrator.Database.LatestVersion | covert-storage/src/migrator.rs:70-77 | The highest recorded version of the mount, nothing exactly if there is none |
| Migrator.RunMeaning | covert-storage/src/migrator.rs:79-121 | A run executes consecutive scripts, unprefixed, on the mount's own tables and touches no others, up to one that has a refused statement, fails on those tables or cannot be committed |
| Migrator.ExactlyOnce | covert-storage/src/migrator.rs:62-124 | After any runs for any mounts, failing anywhere: with k recorded versions, the tables a mount sees are what its first k scripts in order make of the tables it started with |
| Migrator.RerunChangesNothing | covert-storage/src/migrator.rs:79-84 | A run after a complete one changes nothing |
| Migrator.OwnersArePrefixFree | covert-server/src/system/mount.rs:293-307 | The storage prefixes of distinct mounts are as isolation and migration require |
| Unseal.Server.GetKeyShares | covert-server/src/repos/seal.rs:89-114 | The stored shares, each once, in order; one that this process cannot decrypt clears the table |
| Unseal.Server.HandleUnseal | covert-server/src/system/unseal.rs:25-73 | An unseal request does what the specification of the protocol says in each of its cases |
| Unseal.Server.HandleInitialize | covert-server/src/system/initialize.rs:15-47 | So does an initialisation |
| Unseal.Server.HandleSeal | covert-server/src/system/seal.rs:11-44 | So does sealing |
| Unseal.PoolTransitions | covert-server/src/system/seal.rs:11-44 | Exactly which requests initialise and seal the storage, and which ones alone can move the pool from one state to another; the configuration and the storage are never given up |
| Unseal.RefusalsChangeNothing | covert-server/src/system/initialize.rs:20-32 | A refused initialisation or sealing changes nothing, but one whose creation fails has stored its configuration |
| Unseal.DistinctCounts | covert-server/src/repos/seal.rs:95-113 | The collected shares are the distinct ones, as many as there are |
| Unseal.DistinctInOrder | covert-server/src/repos/seal.rs:95-113 | They come in the order in which they were first brought |
| Unseal.UnsealStep | covert-server/src/system/unseal.rs:50-67 | A request unseals only on threshold or more distinct shares of this process, leaves fewer than that stored, and reports progress as their number |
| Unseal.UnsealAnswer | covert-server/src/system/unseal.rs:25-73 | In every run, the exact case of each answer: shares of an earlier process, too few distinct ones, shares that combine to no key, a key that does not open the storage, success, failed set-up; and what is then stored |
| Unseal.UnsealsIff | covert-server/src/system/unseal.rs:50-67 | In every run a request unseals the storage if and only if the shares since the last clear with its own are all of this process, hold enough distinct ones, and these, in the order they came, combine to a key that opens the storage |
| Unseal.RunKeepsInv | covert-server/src/repos/seal.rs:61-87 | In every run what is stored is what the requests since the last clear have brought, fewer distinct shares than the threshold |
| Unseal.UnsealedOnlyByEnoughShares | covert-server/src/system/unseal.rs:50-67 | In every run the storage becomes unsealed only in an unseal request that, with those since the last clear, has brought at least threshold distinct shares; the shares are then cleared |
| Unseal.ProgressIsExact | covert-server/src/system/unseal.rs:50-58 | After every request of every run fewer than threshold distinct shares are stored, and reported progress is their number |
| Unseal.RestartSpoilsOneRequest | covert-server/src/repos/seal.rs:99-104 | After a restart the next request fails and clears everything if and only if shares had been stored |
| Unseal.CanBeInitializedIff | covert-server/src/system/initialize.rs:24-32 | Some run of requests and restarts initialises the storage if and only if it is uninitialised and no configuration is stored |
| Unseal.FailedInitializationRepeatableIff | covert-server/src/system/initialize.rs:20-32 | After a failed initialisation another one can succeed, at once or in any later run, if and only if the storage was uninitialised, no configuration stored, and the parameters were at fault |
| Unseal.InitializedOnce | covert-server/src/system/initialize.rs:15-47 | No run initialises the storage a second time |
| Like.MatchesPrefix | covert-server/src/repos/mount.rs:157-161 | A LIKE pattern that ends in its only percent sign compares as many characters as come before it |
| Like.MeetIff | covert-server/src/repos/mount.rs:157-161 | The recursive test whether two LIKE patterns meet says exactly whether some string matches both |

## Left out

- HTTP, service layers, extractors, the command line and the SDK: plumbing.
- SQLite, sqlx and SQLCipher: each statement is one atomic step on rows with the declared constraints; failing statements other than those modelled are left out.
- sqlparser: the model starts from the syntax tree and prints it with a printer of its own, lexeme by lexeme; quoting, column types and comments are not printed.
- SQL outside the fragment: GROUP BY, HAVING, ORDER BY and LIMIT, value lists of several rows, aggregates below the top of a projection, UPDATE FROM, CREATE VIEW, SELECT INTO, table functions and UNNEST, `TABLE t`, aliases on nested joins, IF EXISTS clauses, multi-part names.
- SQL operators, functions, set operations, insertion and column addition are parameters of the evaluator (`Interp`); foreign keys are not enforced by it, what they reference is in `SqlSchema`.
- SqlMeaning.SetExprPreserved: an expression without an alias gets an empty column name; SQLite names such a column after its text, which the renaming of qualifiers changes.
- SqlRewriter.GetTablesInExpr: trees are taken and returned as values, so overwriting in place and aliasing are not captured (the source owns the trees uniquely).
- Namespace tables keep no order: listings by name are sets or sequences in any order.
- LeaseProtocol.LifetimeBound: the configuration of a mount is fixed during a run; a changed configuration moves the bound.
- LeaseProtocol.JustifiedDeletion: lease ids are fresh, and deletion of rows by hand is not modelled.
- LeaseWorker.ExpirationManager.Drain: the requests of a batch are sent one after another; since each touches its own row only, their overlap does not change the outcome. Errors of the store, sleeping and shutdown are left out of this module.
- LeaseWakeup.NeverSleepsPastADueLease: failing pulls and shutdown are left out.
- SqlRewriter.ScopedText: qualifiers and collected names that hold a dot or an opening parenthesis, which only quoted identifiers can, are excluded from the exactness of the text pass (as quoting is not printed), though not from `OrderIndependentIff`.
- Mounts.StableIfMeetsNone: meeting is a test of pairs of paths, and with percent signs no such test is exact (`CoveredMeetingIsStable`); the exact condition there is `StableIffNothingTakenOver`, which speaks of requests.
- Mounts.Context.Mount: drawing the id, building the backend and its migration are parameters; mounts are created one after another.
- Reloading the router after unsealing, and rolling back a failed mount: marked unfinished in the source.
- Namespaces.NamespaceRepo.FindParents: the walk is about rows that form a tree; from a namespace that names itself as its parent the walk of the source does not end.
- Policies.IsAuthorized: the lookup of a token's policies and its expiry are parameters; `PathPolicy::parse` is left out.
- Migrator.Database.Migrate: checksums, time stamps and the reference to the mounts table are left out; scripts contain no transaction control of their own.
- Unseal.UnsealStep: secret sharing, encryption and the key of the storage are parameters; everything after the pool is unsealed is one step that may fail.
- Entities, tokens, replication, PostgreSQL roles, status and error mapping: easy members or foreign processes.
- Integer widths of versions, dates and durations: mathematical integers.
