# Verified model of an ERP repository's database guards, migrations, routing and number logic

The project models the parts of the repository whose behaviour depends on state, interleaving or arithmetic, and
proves what they guarantee. Where the code guarantees less than its comments suggest, the exact condition is proved
and a concrete run shows the failure.

Check everything with `dafny verify dfyconfig.toml` (Dafny 4.11).

## What is modelled

- **Master-data guards** (`Kleene`, `MasterReference`, `MasterLocks`, `MasterHistory`, `MergeRace`, `WarehouseScope`).
  The trigger that refuses new references to inactive masters, lookup by lookup, with SQL's three-valued `is_active`;
  transactions with `FOR SHARE` and update locks interleaved step by step; the append-only history and the
  no-reactivation trigger over all runs; the composite warehouse key with `ON DELETE SET NULL (branch_id)`.
- **The migration engine** (`SchemaOps`, `MigrationLock`). The four Alembic operations `env.py` replaces, query by
  query, and the advisory lock with any number of replicas, failures and crashes.
- **Adopting migrations** (`Catalog`, `Adoption`, `RfqAward`, `RfqAwardShapes`, `RfqEvaluation`,
  `RfqEvaluationShapes`, `BpaLink`, `PriceBreaks`, `DropRace`).
  Each accepts or creates enums, tables, a column, keys and indexes, records what it created, and undoes only that.
- **Route resolution** (`Routes`, `RouteAudit`). `matchRedirect` and `middleware`, and the audit script's copy.
- **One-time codes** (`Numerals`, `Totp`). Base32 decoding, the time counter and truncation, against section 6 of
  RFC 4648, section 4.2 of RFC 6238 and section 5.3 of RFC 4226.
- **Numbers and checks** (`LandedCost`, `Sequences`, `DevBootstrap`, `Quantities`, `ReworkLineage`, `Waivers`). The
  landed-cost backfill with PostgreSQL's rounding, sequence initialisation beside concurrent writers, the start-up
  script, and CHECK constraints against the guards that precede them.

Code that changes state step by step is a class or a method with a loop (`GuardCall.Guard`, `Database`, `Session`,
`Migration`, `SearchParams`, `MatchRedirect`, `SequenceObject`, `Update` over an array of rows, and so on). Each is
proved to compute a specification function, and the lemmas are about that function. Transactions and replicas are
state machines over lists of steps; a claim "in every interleaving" quantifies over all such lists. An error inside a
migration or a statement leaves the state as it was, because PostgreSQL rolls back DDL as well as data.

Beside the results over whole runs, the statements and steps have lemmas of their own (`CreateIndexIs`, `DecisionIs`,
`SetActiveIs`, `UpgradeSucceedsIff` and so on), which say on rows, columns and names when they go through and what they
leave.

## What the code does not guarantee

- The guard raises only on FALSE. A NULL verdict is let through, and a NULL on the company hides an inactive branch
  (`GuardIsExactIffStopsAtKnown`, `NullCompanyHidesInactiveBranch`). The schema's NOT NULL flags exclude the second.
- A guard call that finds no row locks nothing: a master inserted inactive before the foreign-key check is referenced
  all the same (`MissingRowRace`). A transaction can deactivate what it has just referenced (`OwnDeactivation`). These
  are the only ways: every row the guard found and the transaction left alone is active
  (`CommittedReferenceIsActiveIff`).
- Reactivation after a merge is final exactly when `is_active` is NOT NULL and the history append-only
  (`SealHoldsIffGuarded`), and merge events are written under the master's row lock (`FinalIffEventsAreLocked`), as
  `merge_master` does.
- A create step that was skipped can take effect on replay (`SkippedIndexAppearsOnReplay`, `ReplayIsIdentityIff`).
  Creating CHECK or unique constraints and dropping constraints are not among the replaced operations: a chain that
  does so without asking raises on a baseline that is already in its final shape (`BaselineMakesChainIdle`).
  `20261104_0004` drops a key by a name the models no longer use (`RenameKey`), and `20261104_0005`, `20261104_0006`
  and `20261104_0007` add or drop constraints without asking, so the statement in
  `20260517_0000_squashed_baseline.py:10-12` that the chain runs in full on a fresh database does not hold: the first
  production start of the current release rolls back to an empty database (`FirstProductionStart`).
- If `pg_advisory_lock`, or the commit after it, raises, the replaced operations stay replaced, and in the second case
  the lock stays held (`Operations.DoRunMigrations`): both precede the `try`.
- `20261030_0010` claims an index it did not make when another table has one of that name, and then cannot be undone
  (`SwallowedIndex`). `20261030_0009` leaves the two indexes it adds to an adopted table (`AdoptedIndexesStay`).
- `20261030_0007` and `20261030_0008` look for rows before any lock, so a row committed in between is destroyed
  (`UnlockedDropLosesRow`, `NothingLostIffLockedFirst`).
- The audit script looks for an exact key before it looks at the bypass set; the copies differ exactly there
  (`CopiesDifferIff`), which classification hides (`ReportedIffRedirected`). A bypassed target counts as working even
  without a page.
- `generateTotp` accepts texts that are no encoding (`ReencodesIff`), and four characters outside base32 because of
  `toUpperCase` (dotless i, long s and the two st ligatures).
- A stored variance can be off by 0.0001, and so pending although the stored figures agree (`VarianceAgrees`,
  `TieIsOff`). A POSTED row that lacks an amount loses its status (`PostedRowIsReset`).
- The production-order sequence is initialised without a table lock, on which the promise depends
  (`NoCollisionIffLocked`). Initialising
  an existing sequence again can move it back (`ResetMovesBackIff`). A database first started by the development path
  never gets the plan, line and scenario sequences (`FirstStartDecides`).
- The guards of `20261104_0006` do not look for negative planned quantities, on which its third CHECK fails
  (`UpgradeSucceedsIff`). Rework is unlimited while actual and planned are NULL. Two orders may name each other, but
  only through an update that sets an origin (`StatementKeepsAcyclicIff`).
- An approved waiver may lack an expiry (`AcceptedIff`, `ApprovedWithoutExpiry`).

## Model

| member | source | states |
|---|---|---|
| MasterReference.WarehouseTrail | backend/alembic/versions/20261027_0015_master_lifecycle_semantics.py:86-104 | the rows a warehouse reference makes the guard read, in order: company if set, branch if set, the branch's company, stopping at the first that is not active |
| MasterReference.ParentTrail | backend/alembic/versions/20261027_0015_master_lifecycle_semantics.py:78-116 | the same for branches, recipes and the masters without parents |
| MasterReference.VerdictTrueIffLineageActive | backend/alembic/versions/20261027_0015_master_lifecycle_semantics.py:78-117 | the guard's verdict is TRUE exactly when the master and every parent it names exist and are active |
| MasterReference.MasterAcceptedIff | backend/alembic/versions/20261027_0015_master_lifecycle_semantics.py:113-131 | a master without parents: verdict TRUE exactly when its row is there with flag TRUE, refused exactly when it is there with flag FALSE |
| MasterReference.BranchAcceptedIff | backend/alembic/versions/20261027_0015_master_lifecycle_semantics.py:78-85 | a branch, on its columns: TRUE exactly with an active company row of its own, refused exactly for its own flag FALSE or, when active, its company row's |
| MasterReference.RecipeAcceptedIff | backend/alembic/versions/20261027_0015_master_lifecycle_semantics.py:105-112 | the same for a recipe and its product |
| MasterReference.WarehouseVerdictIsTrueIff | backend/alembic/versions/20261027_0015_master_lifecycle_semantics.py:86-104 | a warehouse, on its columns: TRUE exactly when it, the company it names, and the branch it names with that branch's company are there and active |
| MasterReference.WarehouseRefusedIff | backend/alembic/versions/20261027_0015_master_lifecycle_semantics.py:86-131 | and exactly which flags FALSE refuse it, given that a flag NULL or a missing row before them lets it through |
| MasterReference.GuardIsExactOnKnownRows | backend/alembic/versions/20261027_0015_master_lifecycle_semantics.py:78-131 | on rows without NULL flags or missing parents a reference is accepted exactly when its lineage is active |
| MasterReference.InOrderIsLineage | backend/alembic/versions/20261027_0015_master_lifecycle_semantics.py:78-116 | the keys read off the columns in order are exactly those of the lineage |
| MasterReference.VerdictIsFirstNotActive | backend/alembic/versions/20261027_0015_master_lifecycle_semantics.py:78-117 | on any rows the verdict is the flag of the first row in that order that is not active, NULL if it is missing |
| MasterReference.GuardIsExactIffStopsAtKnown | backend/alembic/versions/20261027_0015_master_lifecycle_semantics.py:78-117 | on any rows the rule is enforced exactly when the rows of the lineage, in order, are active up to one that is there with flag FALSE |
| MasterReference.NullCompanyHidesInactiveBranch | backend/alembic/versions/20261027_0015_master_lifecycle_semantics.py:90-95 | counterexample: a NULL company flag stops the guard before an inactive branch |
| MasterReference.FinalLookupRepeatsFirst | backend/alembic/versions/20261027_0015_master_lifecycle_semantics.py:99-103 | under the composite key the last company lookup changes a verdict exactly for an active warehouse without a company whose active branch has a company that is not active |
| MasterReference.GuardCall.Guard | backend/alembic/versions/20261027_0015_master_lifecycle_semantics.py:66-132 | the trigger body raises exactly for a new or changed, non-NULL reference with verdict FALSE, and holds the whole lineage FOR SHARE when the verdict is TRUE |
| MasterLocks.StepKeepsInvariant | backend/alembic/versions/20261027_0015_master_lifecycle_semantics.py:78-116 | every step of every transaction keeps locks exclusive and every row a guard has read locked and unchanged |
| MasterLocks.RunKeepsInvariant | backend/alembic/versions/20261027_0015_master_lifecycle_semantics.py:78-116 | so does every interleaving |
| MasterLocks.CommitIsSound | backend/alembic/versions/20261027_0015_master_lifecycle_semantics.py:78-116 | a commit changes no row another open transaction's guard has read |
| MasterLocks.OnlyCommitsWrite | backend/alembic/versions/20261027_0015_master_lifecycle_semantics.py:67-131 | no step but a commit changes a master row or a reference, and none touches another transaction: a rejected reference is never stored |
| MasterLocks.CommitStores | backend/alembic/versions/20261027_0015_master_lifecycle_semantics.py:67-131 | a commit stores just the transaction's accepted references and rows, and removes just the rows it deleted |
| MasterLocks.DecisionIs | backend/alembic/versions/20261027_0015_master_lifecycle_semantics.py:114-131 | the transaction ends exactly when the last row looked up is there with flag FALSE or the referenced row is not there for it; else the reference is pending with the lookups made |
| MasterLocks.LookTakes | backend/alembic/versions/20261027_0015_master_lifecycle_semantics.py:78-116 | a lookup returns the own write or the committed row, and locks the row it finds and nothing else |
| MasterLocks.WaitsOnlyForOthers | backend/alembic/versions/20261027_0015_master_lifecycle_semantics.py:78-116 | a guard waits only for an uncommitted write of the row it asks for, never for another guard; a write only for a write or a guard's lock of that row |
| MasterLocks.OneWriterInEveryRun | backend/alembic/versions/20261027_0015_master_lifecycle_semantics.py:67-131 | in every interleaving a referencing row is pending in one open transaction at most |
| MasterLocks.ReferencesComeFromCommits | backend/alembic/versions/20261027_0015_master_lifecycle_semantics.py:67-131 | in every interleaving a reference that is new at the end was asked for by a statement, let through by a guard whose lookups begin at the master and do not end in FALSE, and stored by the commit of that transaction |
| MasterLocks.RowsComeFromCommits | backend/alembic/versions/20261027_0015_master_lifecycle_semantics.py:78-116 | in every interleaving a changed, new or deleted master row is as a transaction wrote it that then committed |
| MasterLocks.CommittedReferenceIsActive | backend/alembic/versions/20261027_0015_master_lifecycle_semantics.py:67-131 | in every interleaving a committed reference whose verdict was TRUE, and whose masters its own transaction left alone, has an entirely active lineage in the committed database; which references can be there is `ReferencesComeFromCommits` |
| MasterLocks.FoundRowsHoldAtCommit | backend/alembic/versions/20261027_0015_master_lifecycle_semantics.py:67-131 | whatever the verdict, every row the guard of a committed reference found is unchanged and not inactive at commit |
| MasterLocks.CommittedReferenceIsActiveIff | backend/alembic/versions/20261027_0015_master_lifecycle_semantics.py:67-131 | the exact condition, in every interleaving, with NOT NULL flags, for every committed reference whatever its verdict: its lineage is active exactly when those of its rows are that the guard did not find or that the transaction wrote itself |
| MasterLocks.VerdictIsTrueIffAllFound | backend/alembic/versions/20261027_0015_master_lifecycle_semantics.py:78-131 | with NOT NULL flags an accepted reference has verdict TRUE exactly when every lookup of its guard found a row |
| MasterLocks.NextIsStored | backend/alembic/versions/20261027_0015_master_lifecycle_semantics.py:78-112 | after the first, each lookup asks for a row that a stored key names |
| MasterLocks.VerdictIsTrueIffMasterFound | backend/alembic/versions/20261027_0015_master_lifecycle_semantics.py:78-131 | under the masters' foreign keys and NOT NULL parent columns only the first lookup can miss: the verdict is TRUE exactly when the master's own row was there when the guard looked |
| MasterLocks.ActiveIffMastersLeftActive | backend/alembic/versions/20261027_0015_master_lifecycle_semantics.py:67-131 | with NOT NULL flags, found rows and unchanged parent columns, the committed lineage is active exactly when the transaction itself neither deleted nor deactivated one of these rows |
| MasterLocks.MissingRowRace | backend/alembic/versions/20261027_0015_master_lifecycle_semantics.py:114-117 | counterexample run: a master inserted inactive after the lookup is referenced |
| MasterLocks.OwnDeactivation | backend/alembic/versions/20261027_0015_master_lifecycle_semantics.py:117-131 | counterexample run: a transaction deactivates the master it referenced |
| MasterHistory.MergeTargetMeaning | backend/alembic/versions/20261027_0015_master_lifecycle_semantics.py:36-40 | the CHECK admits exactly merges into another record and deactivations without target |
| MasterHistory.HistoryOnlyGrows | backend/alembic/versions/20261027_0015_master_lifecycle_semantics.py:220-237 | with the trigger, over every run of inserts, updates and deletes the old events remain a prefix of the new |
| MasterHistory.HistoryOnlyGrowsIff | backend/alembic/versions/20261027_0015_master_lifecycle_semantics.py:220-237 | over all runs this holds exactly when the trigger is installed |
| MasterHistory.OthersAreOthers | backend/alembic/versions/20261027_0015_master_lifecycle_semantics.py:220-237 | what a DELETE would leave is exactly the events of other records |
| MasterHistory.DeleteEventsIs | backend/alembic/versions/20261027_0015_master_lifecycle_semantics.py:220-237 | a DELETE takes every event of the record, as often as it is there, and no other; with the trigger none |
| MasterHistory.OthersKeepOrder | backend/alembic/versions/20261027_0015_master_lifecycle_semantics.py:220-237 | and leaves the others in their order |
| MasterHistory.UpdateEventsIs | backend/alembic/versions/20261027_0015_master_lifecycle_semantics.py:220-237 | an UPDATE replaces exactly the events of the record, where they stand, and only without the trigger and by an event the CHECK admits |
| MasterHistory.InsertEventIs | backend/alembic/versions/20261027_0015_master_lifecycle_semantics.py:19-42 | an event is appended exactly when it is a merge into another record or a deactivation without target |
| MasterHistory.EventsStayWellFormed | backend/alembic/versions/20261027_0015_master_lifecycle_semantics.py:36-40 | over every run of inserts, updates and deletes, trigger or not, every event names a target exactly when it is a merge, and never itself |
| MasterHistory.ReactivatedIff | backend/alembic/versions/20261027_0015_master_lifecycle_semantics.py:177-195 | an inactive master can be made active exactly when none of its events is a merge, whatever other events it has |
| MasterHistory.SetActiveIs | backend/alembic/versions/20261027_0015_master_lifecycle_semantics.py:177-195 | for every flag and value: what an UPDATE of is_active leaves of flags and events |
| MasterHistory.MergedStaysInactive | backend/alembic/versions/20261027_0015_master_lifecycle_semantics.py:177-237 | with NOT NULL flags and both triggers an inactive, merged master never becomes active again |
| MasterHistory.NullReactivates | backend/alembic/versions/20261027_0015_master_lifecycle_semantics.py:182 | without NOT NULL, FALSE to NULL to TRUE passes the trigger |
| MasterHistory.ErasedMergeReactivates | backend/alembic/versions/20261027_0015_master_lifecycle_semantics.py:182-187 | without the append-only trigger, deleting the event first lets the master be reactivated |
| MasterHistory.SealHoldsIffGuarded | backend/alembic/versions/20261027_0015_master_lifecycle_semantics.py:177-237 | the promise holds over all runs exactly when the column is NOT NULL and the history append-only |
| MasterHistory.LifecycleTables.AppendEvent | backend/alembic/versions/20261027_0015_master_lifecycle_semantics.py:19-42 | an event is stored exactly when it is a merge into another record or a deactivation without target; a well-formed history stays so |
| MasterHistory.LifecycleTables.ChangeEvents | backend/alembic/versions/20261027_0015_master_lifecycle_semantics.py:220-237 | an UPDATE rewrites the events of a record row by row, and the trigger or the CHECK undoes it whole; under the trigger it succeeds exactly if it reaches no event |
| MasterHistory.LifecycleTables.EraseEvents | backend/alembic/versions/20261027_0015_master_lifecycle_semantics.py:220-237 | a DELETE under the trigger changes nothing and succeeds exactly if it reaches no event; without it exactly the other records' events are left |
| MasterHistory.LifecycleTables.UpdateActive | backend/alembic/versions/20261027_0015_master_lifecycle_semantics.py:177-219 | the flag changes unless NOT NULL forbids it or the master is inactive, the value TRUE and some event of it a merge, found by looking through the events; nothing else changes |
| MergeRace.LockedMergesAreFinal | backend/app/services/master_lifecycle.py:57-84 | when merge events are written under the master's row lock, in every interleaving a merged, inactive master stays inactive |
| MergeRace.MergedOnceIsMergedForGood | backend/app/services/master_lifecycle.py:57-84 | in the tables themselves: inactive and merged in one state of such an interleaving, so in every later one |
| MergeRace.MergeGoesThrough | backend/app/services/master_lifecycle.py:57-84 | lock and flag, event, commit: the run of a merge goes through and changes that master only |
| MergeRace.SetActiveRefusedIff | backend/alembic/versions/20261027_0015_master_lifecycle_semantics.py:177-195 | a flag is held back exactly by another writer of the row, or by the trigger for an inactive master whose merge event is committed or the transaction's own |
| MergeRace.UnlockedMergeIsUndone | backend/alembic/versions/20261027_0015_master_lifecycle_semantics.py:182-187 | counterexample run without that lock: the trigger misses an uncommitted event |
| MergeRace.FinalIffEventsAreLocked | backend/alembic/versions/20261027_0015_master_lifecycle_semantics.py:177-195 | reactivation is final over all interleavings exactly with that lock |
| WarehouseScope.StepKeepsScope | backend/alembic/versions/20261028_0017_warehouse_branch_company_integrity.py:36-42 | every insert, update and delete keeps the single keys and, once installed, the composite one |
| WarehouseScope.ScopeHoldsInEveryRun | backend/alembic/versions/20261028_0017_warehouse_branch_company_integrity.py:36-42 | from installation on, in every state a warehouse with company and branch has its branch's company |
| WarehouseScope.UnkeyedMoveBreaksScope | backend/alembic/versions/20261028_0017_warehouse_branch_company_integrity.py:17-19 | without the key, moving a branch breaks this |
| WarehouseScope.ScopeLastsIffKeyed | backend/alembic/versions/20261028_0017_warehouse_branch_company_integrity.py:36-42 | over all runs from consistent tables, consistency lasts exactly with the key |
| WarehouseScope.InstallSucceedsIffConsistent | backend/alembic/versions/20261028_0017_warehouse_branch_company_integrity.py:32-42 | the key goes in exactly when every warehouse with both columns has its branch's company, and changes no row |
| WarehouseScope.DeleteBranchClearsOnlyBranch | backend/alembic/versions/20261028_0017_warehouse_branch_company_integrity.py:41 | a deleted branch is gone, every warehouse stays, and only branch_id of its own is cleared |
| WarehouseScope.DeleteCompanyIs | backend/app/models/company.py:55 | a deleted company is gone with exactly its branches; every warehouse stays, without the company or branch that is gone and with the rest |
| WarehouseScope.SaveSiteIs | backend/alembic/versions/20261028_0017_warehouse_branch_company_integrity.py:36-42 | a warehouse is stored exactly when what it names is there and, under the key, its branch is its company's |
| WarehouseScope.MoveBranchIs | backend/alembic/versions/20261028_0017_warehouse_branch_company_integrity.py:36-42 | a branch moves exactly to a stored company and, under the key, when no warehouse of it names its company |
| WarehouseScope.FinalLookupIdleInEveryRun | backend/alembic/versions/20261027_0015_master_lifecycle_semantics.py:99-103 | in every state reached under the key the guard's last lookup changes no verdict of a warehouse with a company |
| WarehouseScope.MasterTables.EnsureKey | backend/alembic/versions/20261028_0017_warehouse_branch_company_integrity.py:20-46 | the DO block installs a missing key if the rows allow it and is otherwise without effect |
| WarehouseScope.MasterTables.Save | backend/alembic/versions/20261028_0017_warehouse_branch_company_integrity.py:36-42 | a warehouse is stored exactly when the tables with it obey every key |
| WarehouseScope.MasterTables.Move | backend/alembic/versions/20261028_0017_warehouse_branch_company_integrity.py:36-42 | a branch moves exactly when the tables after the move obey every key |
| WarehouseScope.MasterTables.DropCompany | backend/app/models/company.py:55 | a deleted company clears its warehouses and takes its branches, which clear theirs |
| WarehouseScope.MasterTables.DropBranch | backend/alembic/versions/20261028_0017_warehouse_branch_company_integrity.py:41 | a deleted branch clears branch_id, keys kept |
| SchemaOps.CreateTableIs | backend/alembic/env.py:140-150 | create_table on the names: skipped exactly for a table or an index of a unique constraint that is there; else exactly when it raises, and what it adds |
| SchemaOps.AddColumnIs | backend/alembic/env.py:152-155 | add_column: skipped for a column that is there, an error without the table |
| SchemaOps.CreateIndexIs | backend/alembic/env.py:157-171 | create_index: skipped exactly without its table, under the name of an index, or when one of its plain columns is not there; else an error exactly without a name or under a table's |
| SchemaOps.CreateForeignKeyIs | backend/alembic/env.py:173-185 | create_foreign_key: skipped exactly without its table, for a key on these columns, or when one of them is not there; else exactly when it raises |
| SchemaOps.UnreplacedAre | backend/alembic/versions/20261104_0006_m22_partial_completion_backorders.py:69-83 | constraints created or dropped are never skipped: exactly when they raise, and what they change |
| SchemaOps.OneStepExtends | backend/alembic/env.py:140-185 | a replaced operation only adds, and changes something exactly when it is not skipped |
| SchemaOps.ChainExtends | backend/alembic/env.py:140-185 | a chain of creations, replaced or not, loses no table, column, index, key or check |
| SchemaOps.PresenceGrows | backend/alembic/env.py:140-185 | what an operation would find present stays present in every larger schema |
| SchemaOps.CarriedOutIsPresent | backend/alembic/env.py:140-185 | the queries find what the operation has made |
| SchemaOps.UnchangedIffAllIdle | backend/alembic/env.py:140-185 | a chain changes nothing and raises nothing exactly when every operation of it is skipped |
| SchemaOps.BaselineMakesChainIdle | backend/alembic/versions/20260517_0000_squashed_baseline.py:3-12 | on a baseline that is as every operation wants it the chain is a no-op, except that it raises exactly if it holds an operation that is not replaced: creating a constraint that is there, dropping one that is not |
| SchemaOps.ReplayIsIdentity | backend/alembic/env.py:140-185 | the same for a second run of a chain of creations whose first run skipped nothing for a missing table or column |
| SchemaOps.PresentUnlessMissing | backend/alembic/env.py:140-185 | an operation not skipped for something missing is present when the run ends |
| SchemaOps.ReplayIsIdentityIff | backend/alembic/env.py:140-185 | for every chain of replaced creations a second run is the identity exactly when each operation skipped for something missing is idle on the final schema |
| SchemaOps.RenameKey | backend/alembic/versions/20261104_0004_m22_routing_work_order_sequence.py:53-65 | dropping a key by its older name and creating it anew goes through exactly on a table that still has the older name |
| SchemaOps.SkippedIndexAppearsOnReplay | backend/alembic/env.py:157-171 | counterexample: an index skipped for its missing table appears on replay |
| SchemaOps.HasFkIff | backend/alembic/env.py:104-133 | the count query finds exactly a key between the two tables on that set of columns, under any name, and nothing for a list that is empty or has repeats |
| SchemaOps.Database.CreateTable | backend/alembic/env.py:140-150 | the replaced create_table, loop included, is the specified step |
| SchemaOps.Database.AddColumn | backend/alembic/env.py:152-155 | likewise add_column |
| SchemaOps.Database.CreateIndex | backend/alembic/env.py:157-171 | likewise create_index |
| SchemaOps.Database.CreateForeignKey | backend/alembic/env.py:173-185 | likewise create_foreign_key |
| MigrationLock.InitialIsSound | backend/alembic/env.py:192-223 | the invariant holds before any replica starts |
| MigrationLock.StepKeepsInvariant | backend/alembic/env.py:192-223 | every step keeps it: one holder, a committed prefix, each revision once |
| MigrationLock.ReplicasMigrateOnce | backend/alembic/env.py:192-223 | for any number of replicas, in every interleaving with failures and crashes: one between lock and unlock, the committed schema is that of a prefix, each revision committed once and in order, success means head |
| MigrationLock.LockIsFreed | backend/alembic/env.py:192-223 | the lock is taken by its step alone and freed exactly when its holder unlocks or crashes |
| MigrationLock.LockIsHeldByWorker | backend/alembic/env.py:192-223 | in every interleaving the lock is free or held by a replica between lock and unlock: none is left behind |
| MigrationLock.AnyReplicaCanFinish | backend/alembic/env.py:192-223 | from every reachable state with the lock free, if no revision raises, any replica that is not running can bring the database to head, exit successfully and free the lock |
| MigrationLock.WaitsOnlyForTheLock | backend/alembic/env.py:192-223 | a replica is held back by the lock or by a revision that raises, and nothing else |
| MigrationLock.UnlockedReplicasRepeat | backend/alembic/env.py:192-193 | counterexample on a dialect without the lock: the same revision is committed twice |
| MigrationLock.CommitsOnceIffLocking | backend/alembic/env.py:192-223 | for every chain and over all runs no revision is committed twice exactly when the lock is taken |
| MigrationLock.Operations.DoRunMigrations | backend/alembic/env.py:135-223 | for every combination of raising calls: the migrations run, if they are reached, with all five attributes replaced and on PostgreSQL under the lock; the originals are back exactly when neither the lock nor the commit after it raised; the lock is still held exactly when that commit or the unlock raised; no error means both are clean |
| Catalog.CompatibleIff | backend/alembic/versions/20261030_0008_rfq_award_approval.py:71-113 | a table is accepted exactly when every expected column, check, unique constraint, index, key and the primary key is there as defined, and in revision 0008 no other column |
| Catalog.DropsKeepSound | backend/alembic/versions/20261030_0008_rfq_award_approval.py:409-417 | dropping a table or an enum that the database lets go leaves no key or column without what it refers to |
| Catalog.CreatedTable | backend/alembic/versions/20261030_0008_rfq_award_approval.py:116-121 | creating and indexing a missing table passes validation exactly when no index name was taken |
| Catalog.Session.CreateIndexes | backend/alembic/versions/20261030_0008_rfq_award_approval.py:149 | the create_index calls make the indexes whose names are free |
| Catalog.Session.EnsureTable | backend/alembic/versions/20261030_0008_rfq_award_approval.py:116-121 | adopts a compatible table as it is, or leaves the expected one empty, or raises |
| Adoption.EnsureListBuilds | backend/alembic/versions/20261030_0008_rfq_award_approval.py:347-358 | ensuring the tables in order changes nothing that was there and adds exactly what was missing |
| Adoption.EnsureListSucceedsIff | backend/alembic/versions/20261030_0008_rfq_award_approval.py:116-121 | on any catalogue the calls succeed exactly when each table that is there fits and each missing one refers to what is there or comes before, uses types that are there and has names nobody else has |
| Adoption.EnsuredTablesAreThere | backend/alembic/versions/20261030_0008_rfq_award_approval.py:347-358 | afterwards every table of the list has every definition expected of it |
| Adoption.ReferrersWereMissing | backend/alembic/versions/20261030_0008_rfq_award_approval.py:347-358 | if a table was missing, so was every expected table that refers to it |
| Adoption.UsersWereMissing | backend/alembic/versions/20261030_0008_rfq_award_approval.py:334-358 | if an enum was missing, so was every expected table that uses it |
| Adoption.DropsBack | backend/alembic/versions/20261030_0008_rfq_award_approval.py:409-411 | the created tables can be dropped in reverse order and leave the others as they are |
| Adoption.EnumsDropBack | backend/alembic/versions/20261030_0008_rfq_award_approval.py:414-417 | then no column uses a created enum, and all can be dropped |
| Adoption.UndoBack | backend/alembic/versions/20261030_0008_rfq_award_approval.py:404-417 | undoing what the ownership row claims restores the start with today's rows |
| Adoption.UndoKeepsSound | backend/alembic/versions/20261030_0008_rfq_award_approval.py:404-417 | whatever the row claims, an undo that goes through leaves no reference to anything that is gone |
| Adoption.EnsureInOrder | backend/alembic/versions/20261030_0008_rfq_award_approval.py:347-358 | the calls one after another, with the flags they return |
| Adoption.AnyRows | backend/alembic/versions/20261030_0008_rfq_award_approval.py:404-408 | finds a row in a created table exactly when there is one |
| Adoption.DropInReverse | backend/alembic/versions/20261030_0008_rfq_award_approval.py:409-411 | the drop loop |
| Adoption.CheckAndDropInReverse | backend/alembic/versions/20261030_0007_rfq_evaluation_matrix.py:314-321 | looking and dropping table by table refuses exactly when some created table holds rows, as if all had been looked at first |
| Adoption.DropEnumsInOrder | backend/alembic/versions/20261030_0008_rfq_award_approval.py:414-417 | the enum drops |
| RfqAward.UpgradeSucceedsIff | backend/alembic/versions/20261030_0008_rfq_award_approval.py:325-358 | the exact condition, in names and labels, under which the upgrade goes through |
| RfqAward.UpgradeDelivers | backend/alembic/versions/20261030_0008_rfq_award_approval.py:342-386 | then all its tables and enums are as defined, all references are there, and the ownership row names exactly what was missing |
| RfqAward.UpgradeAddsOnly | backend/alembic/versions/20261030_0008_rfq_award_approval.py:342-358 | and what was there is unchanged, what was missing is empty |
| RfqAward.DowngradeTakesOnly | backend/alembic/versions/20261030_0008_rfq_award_approval.py:389-417 | any downgrade that goes through, for any row: it found no row in what it dropped, dropped just what the row claims, and left every reference in place |
| RfqAward.UpgradeKeepsWhatItAdopts | backend/alembic/versions/20261030_0008_rfq_award_approval.py:325-386 | an upgrade changes no table, row or enum that was there and records exactly what was missing |
| RfqAward.RoundTrip | backend/alembic/versions/20261030_0008_rfq_award_approval.py:325-417 | from every accepted mix, after any change of data: the downgrade succeeds exactly when the created tables are empty, and then restores the starting schema and keeps every adopted row |
| RfqAward.ReentryIsRefused | backend/alembic/versions/20261030_0008_rfq_award_approval.py:331-332 | a second upgrade is refused, and so is a downgrade without a record |
| RfqAward.OwnershipIsClosed | backend/alembic/versions/20261030_0008_rfq_award_approval.py:342-358 | created awards imply created allocations and approvals, a created enum implies its created table |
| RfqAwardShapes.MigrationIsWorkable | backend/alembic/versions/20261030_0008_rfq_award_approval.py:235-322 | the four written shapes come in an order where keys point back, and depend on each other as the previous row needs |
| RfqAwardShapes.FreshUpgradeGoesThrough | backend/alembic/versions/20261030_0008_rfq_award_approval.py:124-358 | with the four shapes as written the upgrade goes through on every database with the five tables and without the revision's own objects and names |
| RfqAward.Migration.Up | backend/alembic/versions/20261030_0008_rfq_award_approval.py:325-386 | upgrade step by step is the specified one; a refusal changes nothing |
| RfqAward.Migration.Down | backend/alembic/versions/20261030_0008_rfq_award_approval.py:389-417 | likewise downgrade |
| RfqEvaluation.UpgradeSucceedsIff | backend/alembic/versions/20261030_0007_rfq_evaluation_matrix.py:187-276 | the exact condition, in names, labels and the column's definition, under which the upgrade goes through |
| RfqEvaluation.UpgradeDelivers | backend/alembic/versions/20261030_0007_rfq_evaluation_matrix.py:195-276 | then tables, column and enums are as defined, and all references are there |
| RfqEvaluation.UpgradeRecords | backend/alembic/versions/20261030_0007_rfq_evaluation_matrix.py:277-303 | the ownership row names exactly what was missing |
| RfqEvaluation.UpgradeAddsOnly | backend/alembic/versions/20261030_0007_rfq_evaluation_matrix.py:195-276 | of what was there only the responses change, by the column alone |
| RfqEvaluation.DowngradeTakesOnly | backend/alembic/versions/20261030_0007_rfq_evaluation_matrix.py:306-333 | any downgrade that goes through, for any row, destroyed no row and no evaluation, and dropped just what the row claims |
| RfqEvaluation.UpgradeAddsWhatItClaims | backend/alembic/versions/20261030_0007_rfq_evaluation_matrix.py:187-303 | what the ownership row claims was missing at the start, and no other table or enum has changed |
| RfqEvaluation.RoundTrip | backend/alembic/versions/20261030_0007_rfq_evaluation_matrix.py:187-333 | the downgrade succeeds exactly when the created tables are empty and a created status column holds no evaluation; it then restores the starting schema and keeps all rows |
| RfqEvaluation.OwnershipIsClosed | backend/alembic/versions/20261030_0007_rfq_evaluation_matrix.py:195-276 | a created enum implies its column or table was created, created criteria imply created evaluations |
| RfqEvaluationShapes.MigrationIsWorkable | backend/alembic/versions/20261030_0007_rfq_evaluation_matrix.py:122-184 | the two written shapes are ordered and depend on each other as the previous row needs |
| RfqEvaluationShapes.FreshUpgradeGoesThrough | backend/alembic/versions/20261030_0007_rfq_evaluation_matrix.py:187-276 | with the two shapes as written the upgrade goes through on every database with the three tables and without the revision's own objects and names |
| RfqEvaluation.Migration.Up | backend/alembic/versions/20261030_0007_rfq_evaluation_matrix.py:187-303 | upgrade step by step is the specified one |
| RfqEvaluation.Migration.Down | backend/alembic/versions/20261030_0007_rfq_evaluation_matrix.py:306-333 | downgrade, checking and dropping one table after another, is the specified one |
| BpaLink.UpgradeSucceedsIff | backend/alembic/versions/20261030_0010_link_po_to_bpa_release.py:67-90 | the exact condition on tables, column, keys and index under which the upgrade goes through |
| BpaLink.UpgradeAdds | backend/alembic/versions/20261030_0010_link_po_to_bpa_release.py:74-108 | the column, key and index it leaves, and the row it writes |
| BpaLink.DowngradeSucceedsIff | backend/alembic/versions/20261030_0010_link_po_to_bpa_release.py:111-141 | for any ownership row, exactly when the downgrade goes through |
| BpaLink.DowngradeTakes | backend/alembic/versions/20261030_0010_link_po_to_bpa_release.py:111-141 | and what it takes: the claimed index, the first such key, the column with all that is left on it |
| BpaLink.CreatedColumnIsNew | backend/alembic/versions/20261030_0010_link_po_to_bpa_release.py:74-90 | no key or index can mention a column that is about to be created |
| BpaLink.ReachableFlags | backend/alembic/versions/20261030_0010_link_po_to_bpa_release.py:74-108 | a created column implies a created key and index |
| BpaLink.RoundTrip | backend/alembic/versions/20261030_0010_link_po_to_bpa_release.py:67-141 | the downgrade restores the exact column, key and index set exactly when a created column holds no link and a created index was not swallowed by its name on another table; otherwise it refuses |
| BpaLink.SwallowedIndex | backend/alembic/versions/20261030_0010_link_po_to_bpa_release.py:86-90 | counterexample: the upgrade records an index the replaced create_index did not make |
| BpaLink.Migration.Up | backend/alembic/versions/20261030_0010_link_po_to_bpa_release.py:67-108 | upgrade step by step is the specified one |
| BpaLink.Migration.Down | backend/alembic/versions/20261030_0010_link_po_to_bpa_release.py:111-141 | likewise downgrade |
| PriceBreaks.UpgradeIs | backend/alembic/versions/20261030_0009_bpa_price_breaks.py:122-163 | the upgrade goes through exactly when the table fits or is missing and both index names are on it or free; what it leaves |
| PriceBreaks.DowngradeIs | backend/alembic/versions/20261030_0009_bpa_price_breaks.py:166-179 | what the downgrade asks for and what it leaves |
| PriceBreaks.RoundTripIsExactIff | backend/alembic/versions/20261030_0009_bpa_price_breaks.py:122-179 | a successful undo restores the start exactly if no record was there and the table was new or already had both indexes |
| PriceBreaks.RefusalMeansRows | backend/alembic/versions/20261030_0009_bpa_price_breaks.py:166-179 | the undo is refused exactly for a table recorded as created that holds rows |
| PriceBreaks.AdoptedIndexesStay | backend/alembic/versions/20261030_0009_bpa_price_breaks.py:143-148 | counterexample: indexes added to an adopted table stay |
| DropRace.LockedDropLosesNothing | backend/alembic/versions/20261030_0010_link_po_to_bpa_release.py:121-140 | locking before looking: in every interleaving with writers no protected row is destroyed |
| DropRace.DropsIfEmpty | backend/alembic/versions/20261030_0010_link_po_to_bpa_release.py:121-140 | with the lock first, a table without protected rows can be dropped, and on any other the look refuses and every row stays |
| DropRace.RefusalIsFinal | backend/alembic/versions/20261030_0010_link_po_to_bpa_release.py:124-126 | after a refusal the table is there in every later state and no row is lost |
| DropRace.WaitsOnlyForLocks | backend/alembic/versions/20261030_0010_link_po_to_bpa_release.py:121-122 | writers wait only for the exclusive lock, and the lock and the drop only for writers |
| DropRace.UnlockedDropLosesRow | backend/alembic/versions/20261030_0008_rfq_award_approval.py:404-411 | counterexample run for looking first |
| DropRace.NothingLostIffLockedFirst | backend/alembic/versions/20261029_0042_api_client_application_registry.py:175-189 | nothing is lost over all interleavings exactly when the lock comes first |
| Routes.JoinSplit | frontend/src/middleware.ts:453-455 | joining the parts of a path gives the path |
| Routes.SplitConcat | frontend/src/middleware.ts:453-455 | splitting a path at one of its slashes concatenates the parts |
| Routes.SegmentPrefixIsLeading | frontend/src/middleware.ts:454-455 | every prefix that ends before a slash is one of the prefixes looked up |
| Routes.LeadingIsSegmentPrefix | frontend/src/middleware.ts:454-455 | and every prefix looked up is one |
| Routes.LoopIsLongest | frontend/src/middleware.ts:452-458 | the descending loop finds the entry of the longest applicable key, if there is one |
| Routes.ResolveIsLongest | frontend/src/middleware.ts:445-459 | for every table, bypass set and path: null for bypassed paths, else the entry of the longest key that is the path or that it continues after a slash, null exactly without one |
| Routes.ApplicableKeysOfRootedTable | frontend/src/middleware.ts:8-8 | with keys that start with a slash, applicable means just that |
| Routes.MatchRedirect | frontend/src/middleware.ts:445-459 | the loop over positions returns that entry |
| Routes.SetParamLeavesOne | frontend/src/middleware.ts:485-486 | URLSearchParams.set leaves one pair of the name and all others in order |
| Routes.SearchParams.Set | frontend/src/middleware.ts:485-486 | the same in place |
| Routes.SetParamReplaces | frontend/src/middleware.ts:485-486 | set keeps the place of the first pair of the name |
| Routes.SetParamAppends | frontend/src/middleware.ts:485-486 | and without one appends |
| Routes.NoCookieMeansLogin | frontend/src/middleware.ts:472-479 | without the cookie every request goes to the login page with its path and query |
| Routes.PassIff | frontend/src/middleware.ts:481-482 | with it a page is served exactly for a bypassed path or one that no key fits |
| Routes.RespondRedirects | frontend/src/middleware.ts:481-491 | otherwise the answer is a redirect to the page of the longest key that fits, with its tab and drawer exactly once where they are not empty, and every other parameter as before, in order |
| Routes.RespondAppends | frontend/src/middleware.ts:484-491 | on a query that has neither, tab and drawer come at its end |
| Routes.WhichKey | frontend/src/middleware.ts:445-459 | a returned entry belongs to an applicable key |
| Routes.KeyIsUsed | frontend/src/middleware.ts:445-459 | every key that is not bypassed, or contains a slash, decides some path |
| Routes.OneHopIff | frontend/src/middleware.ts:481-491 | every redirect, from any path with any query, leads to a served page in one hop exactly when the target of every such key resolves to null |
| Routes.SeparateTargetsHopOnce | frontend/src/middleware.ts:8-121 | in particular when no target, and no slash-ended prefix of one, is a key |
| RouteAudit.MiddlewareMatch | scripts/audit-visible-import-graph.js:290-299 | the script's loop is the specified function |
| RouteAudit.AuditMatchIs | scripts/audit-visible-import-graph.js:290-299 | for every table of the script: the route's own entry first, bypassed or not; else nothing for a bypassed route, and the entry of the longest key that it continues |
| RouteAudit.CopiesDifferIff | scripts/audit-visible-import-graph.js:290-299 | on equal tables the copies differ exactly on paths that are both bypassed and keys |
| RouteAudit.ReportedIffRedirected | scripts/audit-visible-import-graph.js:464-501 | a target without a template is reported as redirected exactly when the middleware redirects it, and as working exactly when the middleware passes it and it is bypassed or has a page that does not itself redirect |
| RouteAudit.TemplatesAreNotReported | scripts/audit-visible-import-graph.js:468-476 | a template target is working exactly when bypassed or with an [id] page, so never reported as redirected, even where the middleware redirects it |
| RouteAudit.ReasonIs | scripts/audit-visible-import-graph.js:464-501 | exactly which targets get which reason |
| Numerals.NumberOfPadded | frontend/e2e/auth.setup.ts:101 | zero-padded decimal text is read back as its number, and has the given width when the number fits |
| Numerals.TextIsShortest | frontend/e2e/auth.setup.ts:101 | the unpadded text has no leading zero |
| Totp.AlphabetPositions | frontend/e2e/auth.setup.ts:83-88 | the constant string is the alphabet used by the encoding |
| Totp.BitsOfLetters | frontend/e2e/auth.setup.ts:84-92 | the bit string of an encoding is the encoded bits and fewer than five zeros |
| Totp.BytesOfByteBits | frontend/e2e/auth.setup.ts:93-95 | grouping by eight recovers the bytes and drops the rest |
| Totp.DecodeInvertsEncode | frontend/e2e/auth.setup.ts:82-95 | every byte string comes back from its encoding, in any casing and with any number of padding characters |
| Totp.StandardRoundTrip | frontend/e2e/auth.setup.ts:82-95 | in particular from the padded encoding of section 6 of RFC 4648 |
| Totp.StrippedIs | frontend/e2e/auth.setup.ts:85 | exactly the padding at the end is dropped |
| Totp.SymbolsAre | frontend/e2e/auth.setup.ts:87-90 | the characters with a value are exactly the alphabet, its lower-case letters with the same values, and four others, which count as I and S |
| Totp.DecodeIgnoresCase | frontend/e2e/auth.setup.ts:87-90 | for every text, lower-case letters decode as capital ones |
| Totp.DecodedBits | frontend/e2e/auth.setup.ts:84-95 | of every accepted text, encoding or not: bit k of the bytes is bit k of the five-bit groups |
| Totp.DecodedLength | frontend/e2e/auth.setup.ts:82-95 | n symbols give floor(5n/8) bytes; a text is refused exactly if a character before the trailing padding has no value |
| Totp.ReencodesIff | frontend/e2e/auth.setup.ts:82-95 | an accepted upper-case text is the encoding of what it decodes to exactly when fewer than five bits were dropped, all zero |
| Totp.WriteBigUInt64BE | frontend/e2e/auth.setup.ts:96-97 | fills the buffer with the big-endian counter exactly when it fits 64 bits |
| Totp.MessageNamesWindow | frontend/e2e/auth.setup.ts:96-97 | two times give the same message exactly when they are in one 30-second window |
| Totp.CodeIsHotp | frontend/e2e/auth.setup.ts:99-101 | the text is six digits with the value of the dynamic truncation of section 5.3 of RFC 4226 modulo a million |
| Totp.TruncationIs | frontend/e2e/auth.setup.ts:99-100 | the truncation on the bytes: four from the offset in the low four bits of the last, without the top bit |
| Totp.TotpOfEncodedKey | frontend/e2e/auth.setup.ts:82-102 | for every key in every accepted spelling and every time from the epoch on, the result is the RFC 6238 code of its window |
| Totp.WhenGenerationFails | frontend/e2e/auth.setup.ts:87-97 | generation fails exactly for a bad character, looked at first, or a time before the epoch or beyond 64 bits of windows |
| LandedCost.RoundIsNearest | backend/alembic/versions/20261029_0041_landed_cost_actual_variance_posting.py:181-192 | the rounding is the only one to the nearest ten-thousandth with ties away from zero |
| LandedCost.PostedSumOf | backend/alembic/versions/20261029_0041_landed_cost_actual_variance_posting.py:184-190 | a posted allocation of the header and line adds its amount wherever it stands, any other changes nothing |
| LandedCost.PostedSumIsNullIff | backend/alembic/versions/20261029_0041_landed_cost_actual_variance_posting.py:184-190 | the sum is NULL exactly without a posted allocation of the line |
| LandedCost.VarianceAgrees | backend/alembic/versions/20261029_0041_landed_cost_actual_variance_posting.py:181-192 | the stored variance is the stored actual less the allocation, up to 0.0001, and off exactly when the product is a tie and its sign differs from the difference's |
| LandedCost.FilledRow | backend/alembic/versions/20261029_0041_landed_cost_actual_variance_posting.py:180-206 | the row after the update, on the columns: the actual amount is nearest to amount times rate, a NULL rate counting as one; the variance is that less the posted allocations of the line, or less the line's own amount without any, up to 0.0001 and off exactly on a tie of the other sign; RECORDED before posting, NOT_REQUIRED exactly when posted with an exact difference under 0.00005, else PENDING |
| LandedCost.FilledInIff | backend/alembic/versions/20261029_0041_landed_cost_actual_variance_posting.py:207-211 | exactly the rows with line and header that lack one of the three values are filled in |
| LandedCost.BackfillIs | backend/alembic/versions/20261029_0041_landed_cost_actual_variance_posting.py:179-212 | the statement aborts exactly on a row to be filled in whose amount or variance rounds beyond NUMERIC(14, 4), and otherwise fills in row by row |
| LandedCost.TieIsOff | backend/alembic/versions/20261029_0041_landed_cost_actual_variance_posting.py:181-206 | counterexample: stored figures agree and a variance is pending |
| LandedCost.Update | backend/alembic/versions/20261029_0041_landed_cost_actual_variance_posting.py:179-212 | the statement fills in every chosen row in place and changes no other; a value too large for its column, in any row, leaves all rows as they were |
| LandedCost.SecondRunIsIdle | backend/alembic/versions/20261029_0041_landed_cost_actual_variance_posting.py:207-211 | a second run changes nothing, and only rows lacking a value are ever changed |
| LandedCost.PostedRowIsReset | backend/alembic/versions/20261029_0041_landed_cost_actual_variance_posting.py:193-211 | a POSTED row loses its status exactly if an amount was missing |
| Sequences.NewTextMatches | backend/app/services/mps_service.py:47-48 | the text of a new number is read back as that number, whatever the padding |
| Sequences.LiteralMatchesIff | backend/alembic/versions/20261022_0011_mps_number_sequences.py:16-20 | a text matches exactly when digits, at least one, follow the head to the end |
| Sequences.WhatIfMatchesIff | backend/alembic/versions/20261022_0011_mps_number_sequences.py:40-45 | the same for WI-, six hexadecimal digits and a dash |
| Sequences.HighestIsMaximum | backend/alembic/versions/20261022_0011_mps_number_sequences.py:16-20 | the query finds the largest number among matching rows, NULL exactly without one |
| Sequences.FormulasAgree | backend/alembic/versions/20261019_0010_mps_po_number_sequence.py:20-44 | both setval formulas reach the same state, whose next number is one more than the highest stored, or 1 |
| Sequences.SetvalIs | backend/alembic/versions/20261022_0011_mps_number_sequences.py:22-26 | the state is (max, called) from a maximum of 1 on, else (1, not called) |
| Sequences.SequenceObject.Create | backend/alembic/versions/20261022_0011_mps_number_sequences.py:13 | a new sequence starts at 1; an existing one is an error, or with IF NOT EXISTS left alone |
| Sequences.SequenceObject.SetFromRows | backend/alembic/versions/20261022_0011_mps_number_sequences.py:14-28 | the query loop and setval; a number beyond BIGINT aborts |
| Sequences.SequenceObject.NextVal | backend/app/services/mps_service.py:654-657 | hands out the next number, or fails beyond BIGINT |
| Sequences.StepKeepsSound | backend/alembic/versions/20261022_0011_mps_number_sequences.py:32-45 | every step of legacy writers, migration and new writers keeps drawn numbers unique, unstored and below the next |
| Sequences.WritersAre | backend/alembic/versions/20261022_0011_mps_number_sequences.py:32-45 | what a legacy write, a deletion, a draw and a store change, and when each can happen |
| Sequences.NewNumbersNeverCollide | backend/alembic/versions/20261022_0011_mps_number_sequences.py:12-45 | with the table lock, in every interleaving with deletions, a drawn number's text equals no stored one and the next number is beyond everything stored or drawn |
| Sequences.DrawsIncrease | backend/alembic/versions/20261022_0011_mps_number_sequences.py:12-45 | after the commit the counter never goes down and every draw raises it |
| Sequences.UnlockedInitialisationCollides | backend/alembic/versions/20261019_0010_mps_po_number_sequence.py:15-44 | for every allocator without the lock and every head, a run in which the first number drawn is already stored |
| Sequences.NoCollisionIffLocked | backend/alembic/versions/20261022_0011_mps_number_sequences.py:31-45 | for every allocator no drawn number collides over all runs exactly when its migration locks the table |
| Sequences.ResetMovesBackIff | backend/scripts/dev_migrate.py:128-154 | initialising an existing sequence moves it back exactly when it was more than one past all stored numbers |
| Sequences.ResetRepeatsNumbers | backend/scripts/dev_migrate.py:128-154 | any number above all stored ones, handed out before or not, is then handed out |
| DevBootstrap.StartIs | backend/scripts/dev_migrate.py:187-238 | every start, outcome by outcome: production and tracked databases are upgraded, empty and known untracked ones made from the models and stamped, others refused |
| DevBootstrap.UpgradeIs | backend/scripts/dev_migrate.py:187-196 | exactly when an upgrade fails, and the version, key name and sequences it leaves |
| DevBootstrap.StampedIsFinal | backend/scripts/dev_migrate.py:187-238 | once stamped past the sequence revisions, no later start in any environment adds or removes a sequence |
| DevBootstrap.RenameGoesThroughIff | backend/alembic/versions/20261104_0004_m22_routing_work_order_sequence.py:53-65 | the revision's two operations, run as a chain, go through exactly on a table whose key has its older name |
| DevBootstrap.RenameRaisesIff | backend/alembic/versions/20261104_0004_m22_routing_work_order_sequence.py:53-65 | an upgrade meets the rename exactly where it is pending, and fails there exactly without the older name |
| DevBootstrap.FirstProductionStart | backend/alembic/versions/20261104_0004_m22_routing_work_order_sequence.py:53-57 | a production start on an empty database makes all four sequences exactly with a release from before the rename; with any later one the rename raises on the baseline just made and the database stays empty |
| DevBootstrap.FirstStartDecides | backend/scripts/dev_migrate.py:187-238 | on an empty database, over all starts: it stays empty until one gets through, in development or with a release before the rename; that one decides for good, all four sequences in production, only the production-order one in development |
| DevBootstrap.OlderDatabaseUpgrades | backend/scripts/dev_migrate.py:191-196 | a database made by a release before the rename goes through every later one and has its key renamed |
| DevBootstrap.AllSequencesIff | backend/scripts/dev_migrate.py:187-238 | a successful start leaves all four exactly when they were there or it upgraded past their revision, and an upgrade succeeds exactly when the version is known, no sequence is in the way and a pending rename finds the older name |
| Quantities.GuardsAreComplements | backend/alembic/versions/20261104_0006_m22_partial_completion_backorders.py:24-40 | each guard is the exact three-valued complement of the CHECK it precedes |
| Quantities.UpgradeSucceedsIff | backend/alembic/versions/20261104_0006_m22_partial_completion_backorders.py:19-83 | the outcome on the columns: a guard fails exactly on an actual quantity outside (0, planned]; a passed guard lets both actual-quantity CHECKs in, and the third fails exactly on a negative planned quantity, of an order without actual quantity; else every row is there with nothing backordered |
| Quantities.Downgrade6LosesNothing | backend/alembic/versions/20261104_0006_m22_partial_completion_backorders.py:86-123 | the downgrade goes through exactly when upgrading again would give every row back |
| Quantities.Downgrade6Is | backend/alembic/versions/20261104_0006_m22_partial_completion_backorders.py:86-123 | it is refused exactly while an order is or has a backorder, and keeps the other columns |
| Quantities.ChecksMeanLimits | backend/alembic/versions/20261104_0007_m22_work_order_rework.py:37-53 | what all CHECKs of a work order admit, without three-valued logic |
| Quantities.RowAdmittedIff | backend/alembic/versions/20261104_0007_m22_work_order_rework.py:37-53 | the same spelled out on the columns, a reason counting with one character that is no blank |
| Quantities.Upgrade7SucceedsIff | backend/alembic/versions/20261104_0007_m22_work_order_rework.py:20-53 | after the previous revision the upgrade fails exactly on a negative planned quantity |
| Quantities.Revision7Is | backend/alembic/versions/20261104_0007_m22_work_order_rework.py:20-93 | the outcomes of upgrade and downgrade, and every row after them |
| Quantities.Downgrade7LosesNothing | backend/alembic/versions/20261104_0007_m22_work_order_rework.py:62-93 | the downgrade goes through exactly when no rework is recorded, and upgrading again gives every row back |
| Quantities.WorkOrders.InsertRow | backend/alembic/versions/20261104_0007_m22_work_order_rework.py:28-53 | a row is stored exactly within the limits and with an existing origin |
| Quantities.WorkOrders.UpdateRow | backend/alembic/versions/20261104_0007_m22_work_order_rework.py:28-53 | likewise an update |
| Quantities.WorkOrders.DeleteRow | backend/alembic/versions/20261104_0007_m22_work_order_rework.py:28-35 | looking through the rows, deletes one exactly when no row names it, keeps every other row, and leaves limits and origins sound |
| Quantities.StatementsAre | backend/alembic/versions/20261104_0007_m22_work_order_rework.py:28-53 | what an INSERT, UPDATE and DELETE change, under CHECKs, key and RESTRICT, and that nothing else changes |
| Quantities.RunIsSound | backend/alembic/versions/20261104_0007_m22_work_order_rework.py:28-53 | every run keeps limits and origins |
| Quantities.LimitsHoldInEveryRun | backend/alembic/versions/20261104_0007_m22_work_order_rework.py:37-53 | from the upgrade on, in every run: rework <= actual <= planned wherever not NULL, and every rework names another existing order and a reason |
| Quantities.ReworkWithoutActualIsUnlimited | backend/alembic/versions/20261104_0007_m22_work_order_rework.py:40-41 | without planned and actual quantity any non-negative rework is admitted |
| ReworkLineage.NewOriginIff | backend/alembic/versions/20261104_0007_m22_work_order_rework.py:28-47 | giving a row an origin closes a cycle exactly when that origin already went back to the row |
| ReworkLineage.StatementKeepsAcyclicIff | backend/alembic/versions/20261104_0007_m22_work_order_rework.py:28-47 | no insert or delete closes a cycle, and an accepted update does exactly when the origin it sets goes back to the updated row |
| ReworkLineage.LineageStaysAcyclic | backend/alembic/versions/20261104_0007_m22_work_order_rework.py:28-47 | every run whose updates set no new origin keeps the lineage free of cycles |
| ReworkLineage.ReworksMayFormACycle | backend/alembic/versions/20261104_0007_m22_work_order_rework.py:43-47 | counterexample run: two orders name each other |
| ReworkLineage.AcyclicIffOriginsKept | backend/alembic/versions/20261104_0007_m22_work_order_rework.py:28-47 | over all runs the lineage stays free of cycles exactly under that discipline |
| Waivers.AcceptedIff | backend/alembic/versions/20261029_0032_quality_gate_waivers.py:54-64 | exactly what the two state CHECKs accept; an approved waiver's expiry may be NULL, a decided one's may be anything |
| Waivers.ApprovedWithoutExpiry | backend/alembic/versions/20261029_0032_quality_gate_waivers.py:56 | counterexample: approved without expiry, accepted on NULL |
| Waivers.ConditionIsTrueIff | backend/alembic/versions/20261029_0032_quality_gate_waivers.py:54-59 | the condition is TRUE of an accepted waiver exactly when, if approved, it has an expiry |

## Left out

- Routes.SeparateTargetsHopOnce: takes the shape of the table as a hypothesis; the 85 literal entries of `middleware.ts` are not restated.
- MasterLocks.CommittedReferenceIsActive: needs a TRUE verdict and masters left alone by the referencing transaction; the exact condition without these is `CommittedReferenceIsActiveIff`.
- DevBootstrap.FirstProductionStart: runs the rename of `20261104_0004` on the baseline; its position is a parameter, and that the revisions before it ask before they create is read off their text, not modelled.
- SchemaOps.ReplayIsIdentityIff: for chains of creations only; a chain that drops a constraint and creates it again can go through twice.
- Quantities.WorkOrders.InsertRow: covers the quantity and rework columns; the other columns of work orders have no checks.
- Totp: HMAC-SHA-1 is an arbitrary function to 20 bytes; lone surrogates, which are refused like any other foreign character, are not characters of the model.
- Uninstalling the triggers, their creation by catalogue loops, and the message texts.
- TRUNCATE, and deletion and reinsertion of a master, for the history claims.
- Serialisation failures and deadlock detection: a blocked step simply does not happen yet, and any transaction may roll back at any point.
- Savepoints: an error inside a transaction ends it.
- Table DDL column by column, column defaults and comments, and the shape checks of the ownership tables.
- The text normalisation of CHECK expressions: shapes hold them in the normal form in which the migrations compare them.
- Revisions with auto-named indexes, index options and expression text in the replaced operations; an unnamed index is an error of the original operation.
- NaN and infinity among NUMERIC values.
- Percent-encoding in URLSearchParams, the login redirect's URL and the cache headers; keys inherited from Object.prototype, which no path starting with a slash can name.
- File reading, regex scanning and reports of the audit script; whether a page exists or only redirects is a parameter.
- Posting tables, column ownership comments and the downgrade of the landed-cost revision.
- Count-based allocation on other dialects than PostgreSQL, and legacy writers that go on after the migration commits: the source requires them to be stopped.
- `20261029_0035` to `20261029_0037`, which extend existing tables and are not meant to be restored exactly.
- The rest of the application (services, other migrations, frontend pages), which adds no property of this kind.
