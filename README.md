# Replicated concurrency control and recovery, modelled in Dafny

The system simulates a distributed database made of ten sites that hold twenty
variables `x1` … `x20`.

Placement:
- Every even variable is replicated at every site.
- An odd variable `xi` lives only at site `1 + i mod 10`.

Each site is a *data manager*. It keeps:
- for each resident variable, a multiversion history of committed values, newest first;
- a scratch ("uncommitted") value per resident variable;
- a per-variable flag saying whether the variable may be read again after a recovery;
- a lock table, in which each variable has a mode (idle, read, write), a set of holders and a FIFO wait list;
- a record of which variables each transaction wrote;
- its failure history.

A single *transaction manager* coordinates the sites. It:
- keeps the registry of live transactions (start time, read-only flag, whether it must abort, the sites it visited);
- keeps the per-site up/down flags and the queue of pending reads and writes;
- on every line of input:
  1. looks for a deadlock in the union of the sites' wait-for graphs and aborts the youngest transaction on a cycle;
  2. applies the command (`begin`, `beginRO`, `R`, `W`, `end`, `fail`, `recover`, `dump`);
  3. retries every pending operation;
  4. advances the clock.

Protocols:
- **Read/write transactions** use available-copies two-phase locking:
  - A read takes the first up hosting site that grants a read lock.
  - A write needs a write lock at every up hosting site.
  - `end` commits the transaction's writes at every site it visited, or reports the abort.
- **Read-only transactions** read a snapshot at their start time from the multiversion histories. A replicated variable's version counts only if the site did not fail between that version's commit and the snapshot.

Module structure:
- **Imperative.** The two core classes are Dafny classes:
  - `Sites.DataManager` (data_manager.dfy) mutates its own fields.
  - `Coordination.TransactionManager` (transaction_manager.dfy) holds the site objects, an `array<bool>` of site flags and the registry.
  
  Each method is proved against a pure specification of the same step.
- **Site specification.** `SiteSpec` defines `FailState`, `RecoverState`, `ReadLockState`, `CommitState` and so on. The lock-manager functions are in `Locks` and the version histories in `Versions`.
- **Coordinator specification.** `Attempts` defines `ReadTry`, `WriteTry`, `Pass`, `AbortTxn` and `FinishTxn` on a value `World` (the sites' states, the registry and the output).
- **Graph search.** `WaitGraph` holds the recursive cycle search.
- **Glue.** `Fanout` and `Bookkeeping` hold the methods that drive several site objects at once.
- **Placement.** `Placement` holds the placement table.

## Model

| member | source | states |
|---|---|---|
| Placement.HostsUpToMembers | src/TransactionManager.java:101-111 | the sites scanned so far that host `v` are exactly those up to `n` storing it, in strictly increasing order |
| Placement.HostsSpec | src/TransactionManager.java:101-111 | a variable's host list contains exactly the sites that store it, in strictly increasing order |
| Placement.EvenHostsUpTo | src/TransactionManager.java:107-108 | an even variable is hosted at every site, in order |
| Placement.OddHostsUpTo | src/TransactionManager.java:107-108 | an odd variable is hosted at its one home site `1 + v mod 10` only |
| Placement.BuildItemSites | src/TransactionManager.java:101-111 | the nested loops build exactly the placement table: a host list for every variable 1..20 |
| Placement.AddSite | src/TransactionManager.java:105-110 | after site `s` is scanned, every variable's list holds its hosts among sites 1..s |
| Placement.TableComplete | src/TransactionManager.java:101-111 | a table whose keys are the variables and whose entries are the full host lists is the placement table |
| Locks.ReadLockCheck | src/DataManager.java:216-233 | a read lock is never judged grantable on a write-locked variable held by another transaction |
| Locks.WriteLockCheck | src/DataManager.java:260-277 | a write lock is judged grantable only if no other transaction holds a lock on the variable |
| Locks.Enqueue | src/DataManager.java:250-255 | a refused request joins the wait list exactly once; holders and mode are unchanged |
| Locks.AfterReadRequest | src/DataManager.java:239-257 | a granted read request adds the requester to the earlier holders, leaves the wait list as it was and makes the mode non-idle; a refused one queues it; other variables are unchanged |
| Locks.AfterWriteRequest | src/DataManager.java:279-297 | a granted write request sets WRITE mode, adds the requester to the earlier holders and leaves the wait list as it was; a refused one queues it; other variables are unchanged |
| Locks.ReadRequestWellFormed | src/DataManager.java:235-258 | a read request keeps every lock entry well formed (idle exactly when nobody holds it, write with exactly one holder) |
| Locks.WriteRequestWellFormed | src/DataManager.java:279-297 | a write request keeps entries well formed; after a grant the requester is the sole write holder |
| Locks.ReadRequestIdempotent | src/DataManager.java:249-256 | repeating a read request changes nothing: no duplicate waiter |
| Locks.WriteRequestIdempotent | src/DataManager.java:288-295 | repeating a write request changes nothing: no duplicate waiter |
| Locks.Purge | src/DataManager.java:400-408 | the purged wait list keeps exactly the requests of other transactions |
| Locks.PurgeAppend | src/DataManager.java:400-405 | purging keeps the FIFO order: purging two joined pieces is joining their purges |
| Locks.PurgeUntouched | src/DataManager.java:400-405 | a wait list with no request of the transaction comes through unchanged, duplicates included |
| Locks.Release | src/DataManager.java:397-410 | releasing removes the transaction from the holders; if it held the lock, its wait list becomes the order-preserving purge of its requests and the lock goes IDLE exactly when no holder is left, the mode being kept otherwise; an entry it does not hold is untouched; keeps well-formedness |
| Locks.Released | src/DataManager.java:397-410 | after release the transaction holds no lock anywhere; keys and well-formedness kept |
| Locks.GrantHead | src/DataManager.java:360-378 | granting the head moves the first waiter into the holders and drops it from the wait list; a write grant sets WRITE, a read grant turns IDLE into READ and keeps any other mode |
| Locks.GrantHeadWellFormed | src/DataManager.java:360-378 | granting a grantable head keeps the entry well formed |
| Locks.HeadGrantable | src/DataManager.java:361-379 | the re-grant rule for a wait-list head is exactly the acquisition rule for its mode with the wait list set aside |
| Locks.Settle | src/DataManager.java:353-386 | settling one entry only adds holders and only removes waiters |
| Locks.SettleSpec | src/DataManager.java:353-386 | repeated granting ends with a head that cannot be granted, grants a prefix of the wait list and keeps well-formedness |
| Locks.SettleFixpoint | src/DataManager.java:353-386 | the settled entry's head is not grantable and the entry stays well formed |
| Locks.SettleGrants | src/DataManager.java:353-386 | settling grants exactly a prefix of the wait list: the remaining list is the suffix, the holders gain the prefix's transactions |
| Locks.Reassigned | src/DataManager.java:353-386 | after reassignment no wait-list head anywhere is grantable; keys and well-formedness kept |
| Locks.AdvanceShrinks | src/DataManager.java:354-385 | each sweep that grants something strictly shrinks the set of waiting slots, so the loop ends |
| Locks.ConflictHasOtherHolder | src/DataManager.java:439-456 | a holder conflict with a waiting request always involves another transaction |
| Locks.VTConflict | src/DataManager.java:439-456 | a waiter conflicts with the holders exactly when the entry is locked and the re-grant rule would not grant it at the head |
| Locks.TTConflict | src/DataManager.java:458-466 | two waiters conflict exactly when they belong to different transactions and the later could not be granted beside the earlier |
| Locks.HolderEdges | src/DataManager.java:473-484 | every waiter-to-holder edge ends at a holder other than the waiter |
| Locks.ConflictingWaiterWaits | src/DataManager.java:473-484 | in a well-formed entry every waiter that conflicts with the holders has an edge to some holder |
| Locks.EntryEdges | src/DataManager.java:470-498 | an IDLE entry or one nobody waits on gives no edge; every edge starts at a waiter of the entry and is not a self edge |
| Locks.WaitEdges | src/DataManager.java:468-501 | the site's wait-for edges have no self edge and every source is waiting at the site |
| Versions.Snapshot | src/DataManager.java:330-351 | a snapshot read succeeds iff the first version committed by the timestamp exists and, for a replicated variable, no failure lies between its commit and the timestamp; it returns that version's value |
| Versions.ShiftVisible | src/DataManager.java:334-335 | skipping a version newer than the timestamp shifts the visible position by one |
| Versions.VisibleUnique | src/DataManager.java:334-335 | at most one version is the one visible at a timestamp |
| Versions.VisibleIsLatest | src/DataManager.java:334-335 | in a newest-first history, the visible version is the latest one committed at or before the timestamp |
| Versions.SentinelVisible | src/DataManager.java:171 | with the initial version at time -1 at the end, some version is always visible |
| Versions.UnreplicatedSnapshotSucceeds | src/DataManager.java:344-346 | a snapshot of an unreplicated (odd) variable always succeeds |
| SiteSpec.InitialInv | src/DataManager.java:157-177 | a new site is up, holds version `10*v` at time -1 for each resident variable and satisfies the site invariant |
| SiteSpec.FailState | src/DataManager.java:179-186 | failure marks the site down, keeps every history, appends the failure time, and leaves nothing locked, readable or written |
| SiteSpec.RecoverState | src/DataManager.java:188-202 | recovery marks the site up, keeps histories, locks and write records, gives each stored variable its newest committed value and makes exactly the odd ones readable |
| SiteSpec.ReadLockState | src/DataManager.java:235-258 | a read-lock request changes only the lock table; a grant makes the reader a holder; a refusal grants nobody anything on the variable |
| SiteSpec.WriteLockState | src/DataManager.java:279-297 | a write-lock request changes only the lock table; a grant lets the writer write; a refusal queues it and grants nobody anything on the variable |
| SiteSpec.FailInv | src/DataManager.java:179-186 | failure keeps the committed histories and the invariant, marks the site down, appends the failure time, and empties the scratch values, freshness flags, lock table and write records |
| SiteSpec.RecoverInv | src/DataManager.java:188-202 | recovery keeps the site invariant |
| SiteSpec.RecoverSpec | src/DataManager.java:188-202 | recovery marks the site up, appends the recovery time, keeps the histories, the lock table and the write records, copies the latest committed value into scratch and makes only odd variables readable |
| SiteSpec.RecoverMaps | src/DataManager.java:192-201 | after recovery the scratch and readability maps cover exactly the stored variables |
| SiteSpec.ReadLockSpec | src/DataManager.java:235-258 | an unreadable variable refuses without change; a grant keeps the earlier holders and adds the reader, turns IDLE into READ and keeps the wait list; a refusal queues the reader once; other variables are untouched |
| SiteSpec.WriteLockSpec | src/DataManager.java:279-297 | a grant leaves the writer the sole holder in WRITE mode and keeps the wait list; a refusal queues the writer once; other variables are untouched |
| SiteSpec.WriteSpec | src/DataManager.java:314-328 | a write succeeds iff the writer holds the write lock; then scratch gets the value and the variable is recorded for the writer; otherwise nothing changes |
| SiteSpec.ReadYourWrites | src/DataManager.java:299-328 | a transaction that wrote a readable variable reads back its own value |
| SiteSpec.ReadSpec | src/DataManager.java:299-312 | a read succeeds iff the variable is readable and the reader holds a lock; it returns the scratch value |
| SiteSpec.ReadOnlySpec | src/DataManager.java:330-351 | with newest-first histories: a snapshot read of an absent variable fails; otherwise it succeeds iff a version committed by the start time exists and, for an even variable, no failure lies between its commit and the start time; the value is that of the latest such version; an odd resident variable always succeeds |
| SiteSpec.ReadOnlyAt | src/DataManager.java:330-351 | a successful snapshot read returns the value of the version visible at the start time; for an odd stored variable it succeeds exactly when such a version exists |
| SiteSpec.UnlockedSpec | src/DataManager.java:397-411 | releasing a transaction's locks and reassigning keeps well-formedness and keys and leaves no grantable head |
| SiteSpec.UnlockedStaleGrant | src/DataManager.java:397-411 | a transaction that holds a lock after its own release must have been granted it from a request still queued under it |
| SiteSpec.CommitInv | src/DataManager.java:388-412 | commit keeps the site invariant |
| SiteSpec.CommitKeys | src/DataManager.java:388-395 | commit keeps the set of stored variables and forgets the transaction's write record |
| SiteSpec.CommitSentinels | src/DataManager.java:388-395 | commit keeps the initial version at the end of every history |
| SiteSpec.CommitSpec | src/DataManager.java:388-395 | commit at time `ts` later than every earlier commit pushes the scratch value at `ts` in front of each written history; histories stay ordered |
| SiteSpec.CommitState | src/DataManager.java:388-412 | commit puts one version (scratch value, commit time) in front of each written history, marks it fresh, keeps the other histories, forgets the write record and leaves no grantable head |
| SiteSpec.AbortInv | src/DataManager.java:414-437 | abort keeps the site invariant |
| SiteSpec.AbortSpec | src/DataManager.java:414-420 | abort restores each written variable's scratch value to its latest committed value, forgets the write record and keeps the histories |
| SiteSpec.AbortState | src/DataManager.java:414-437 | abort keeps every history, restores each written variable's newest committed value, keeps the other scratch values, forgets the write record and leaves no grantable head |
| SiteSpec.AbortAfterFail | src/DataManager.java:179-186 | aborting at a failed site changes nothing |
| SiteSpec.ConfinedReady | src/DataManager.java:388-395 | at a site whose write records name only stored variables, commit and abort are always defined |
| SiteSpec.FailConfined | src/DataManager.java:184 | failure clears the write records |
| SiteSpec.RecoverConfined | src/DataManager.java:188-202 | recovery keeps the write records confined to stored variables |
| SiteSpec.LockConfined | src/DataManager.java:235-297 | lock requests keep the write records confined |
| SiteSpec.WriteConfined | src/DataManager.java:320-325 | a write to a stored variable keeps the write records confined |
| SiteSpec.CommitConfined | src/DataManager.java:388-395 | commit keeps the write records confined |
| SiteSpec.AbortConfined | src/DataManager.java:414-420 | abort keeps the write records confined |
| SiteSpec.GrantedReadSucceeds | src/DataManager.java:235-312 | once a read lock is granted, the read at that site succeeds with the scratch value |
| SiteSpec.GrantedWriteLands | src/DataManager.java:279-328 | once a write lock is granted, the write succeeds and sets the scratch value |
| Passes.HostsWalk | src/TransactionManager.java:101-111 | a host list is within the sites, ascending and lists only sites that store the variable |
| Passes.Scan | src/TransactionManager.java:327-343 | a first-grant pass over the hosts returns 0 or an up host |
| Passes.ScanStops | src/TransactionManager.java:327-343 | the pass stops at the first up host that grants; no earlier up host granted |
| Passes.ScanAsks | src/TransactionManager.java:327-343 | the pass asks exactly the up hosts up to the one that granted, and no others |
| Passes.ScanGranted | src/TransactionManager.java:327-343 | the returned host granted |
| Passes.Sweep | src/TransactionManager.java:364-370 | an all-hosts pass keeps the number of sites |
| Passes.SweepAsks | src/TransactionManager.java:364-370 | the all-hosts pass asks every up host and no other site |
| Passes.SweepGrants | src/TransactionManager.java:364-370 | the all-hosts pass succeeds iff every up host grants |
| Rows.CommitAllKeeps | src/TransactionManager.java:315-317 | commit never changes a site's up/down status |
| Rows.AbortAllKeeps | src/TransactionManager.java:290-292 | abort never changes a site's status or histories |
| Rows.ReadPass | src/TransactionManager.java:324-344 | the read pass returns 0 or an up host of the variable |
| Rows.ServesIffGranted | src/TransactionManager.java:331-340 | a site serves a read iff it grants the read lock; then the read returns the scratch value |
| Rows.ServedValue | src/TransactionManager.java:331-336 | the value served is the site's scratch value |
| Rows.ReadPassStops | src/TransactionManager.java:327-343 | the read is served by the first up host that grants the lock |
| Rows.ReadPassValue | src/TransactionManager.java:332-336 | the read pass's chosen site answers the read successfully |
| Rows.ReadPassAnswer | src/TransactionManager.java:332-336 | the value reported equals the chosen site's scratch value before the pass |
| Rows.ReadPassRefusals | src/TransactionManager.java:327-342 | no up host before the chosen one grants the read lock |
| Rows.ReadOnlyPass | src/TransactionManager.java:346-359 | the snapshot pass returns 0 or an up host of the variable |
| Rows.ReadOnlyPassSpec | src/TransactionManager.java:346-358 | the snapshot read is answered by the first up host whose snapshot succeeds |
| Rows.WriteLocks | src/TransactionManager.java:364-370 | the lock pass keeps the number of sites |
| Rows.WriteAll | src/TransactionManager.java:371-378 | the write pass keeps the number of sites |
| Rows.WriteLocksSpec | src/TransactionManager.java:364-370 | every up host is asked for a write lock; the write proceeds iff every up host grants |
| Rows.WriteLands | src/TransactionManager.java:364-379 | after all locks are granted, every up host's scratch value is the written value |
| Rows.WriteVacuous | src/TransactionManager.java:364-381 | with no up host, the write proceeds and changes no site |
| Rows.AllWaitEdgesSound | src/TransactionManager.java:404-415 | every edge of the merged graph comes from some site's graph |
| Rows.AllWaitEdgesComplete | src/TransactionManager.java:404-415 | every site's edge is in the merged graph |
| WaitGraph.AddEdge | src/TransactionManager.java:409-412 | adding an edge adds exactly that edge and its source row |
| WaitGraph.EmptyEdges | src/TransactionManager.java:417-419 | a graph without empty rows is empty iff it has no edges |
| WaitGraph.GraphOf | src/TransactionManager.java:404-415 | an edge set is turned into a graph with exactly those edges and no empty row |
| WaitGraph.GraphOfEdges | src/TransactionManager.java:404-415 | a graph without empty rows is determined by its edges |
| WaitGraph.Search | src/TransactionManager.java:384-400 | the depth-first search only grows the visited set |
| WaitGraph.HasCycle | src/TransactionManager.java:384-400 | the cycle check answers true iff the transaction lies on a cycle of the wait-for graph |
| WaitGraph.CycleHasRow | src/TransactionManager.java:422-433 | a transaction on a cycle has a row in the graph |
| WaitGraph.SearchSound | src/TransactionManager.java:387-398 | a search that answers true has found a path back to the root |
| WaitGraph.ChildrenSound | src/TransactionManager.java:389-398 | a true answer from the children loop means some child reaches the root |
| WaitGraph.SearchClosed | src/TransactionManager.java:387-398 | a false search leaves a visited set closed under edges and missing the root |
| WaitGraph.ChildrenClosed | src/TransactionManager.java:389-398 | a false children loop leaves a visited set closed under edges |
| WaitGraph.NoWalkBack | src/TransactionManager.java:384-400 | a closed visited set without the root means the root is on no cycle |
| WaitGraph.WalkStays | src/TransactionManager.java:384-400 | every walk from inside a closed visited set stays inside it |
| Sites.PurgeWaitlist | src/DataManager.java:400-408 | the loop removes exactly the transaction's queued requests |
| Sites.AddHolderEdges | src/DataManager.java:473-484 | the loop adds every waiter-to-conflicting-holder edge |
| Sites.AddQueueEdges | src/DataManager.java:486-497 | the loop adds every edge to an earlier conflicting waiter |
| Sites.AddEarlierEdges | src/DataManager.java:487-496 | the inner loop adds the edges from one waiter to the earlier ones it conflicts with |
| Sites.AddEntryEdges | src/DataManager.java:470-498 | the edges of one lock entry are exactly its holder edges and queue edges |
| Sites.Refreshed | src/DataManager.java:192-201 | the recovery loop sets scratch and readability for every stored variable |
| Sites.RefreshDone | src/DataManager.java:192-201 | the finished recovery loop equals the recovered state |
| Sites.ReleaseLocks | src/DataManager.java:397-410 | the release loop yields the released lock table |
| Sites.ReassignLocks | src/DataManager.java:353-386 | the reassignment loop yields the reassigned lock table: no grantable head is left |
| Sites.NewVersions | src/DataManager.java:389-393 | the commit loop pushes one new version for each variable the transaction wrote |
| Sites.VersionsDone | src/DataManager.java:389-393 | the finished commit loop equals the committed histories |
| Sites.RestoredScratch | src/DataManager.java:415-418 | the abort loop restores each written variable's latest committed value |
| Sites.InitialMaps | src/DataManager.java:168-176 | the construction loop stores exactly the resident variables with their initial values |
| Sites.DataManager.constructor | src/DataManager.java:157-177 | a new site is in the initial state |
| Sites.DataManager.Fail | src/DataManager.java:179-186 | the site's new state is the failed state |
| Sites.DataManager.Recover | src/DataManager.java:188-202 | the site's new state is the recovered state |
| Sites.DataManager.AcquireReadLock | src/DataManager.java:235-258 | the answer is whether the read lock is granted, and the state is the read-request state |
| Sites.DataManager.AcquireWriteLock | src/DataManager.java:279-297 | the answer is whether the write lock is granted, and the state is the write-request state |
| Sites.DataManager.QueueOnce | src/DataManager.java:250-255 | the request is appended to the wait list only if it is not already there |
| Sites.DataManager.Read | src/DataManager.java:299-312 | the response is the specified read response |
| Sites.DataManager.ReadOnly | src/DataManager.java:330-351 | the response is the specified snapshot response |
| Sites.DataManager.Write | src/DataManager.java:314-328 | the response and new state are those of the specified write |
| Sites.DataManager.Commit | src/DataManager.java:388-412 | the site's new state is the committed state |
| Sites.DataManager.Abort | src/DataManager.java:414-437 | the site's new state is the aborted state |
| Sites.DataManager.GenWaitGraph | src/DataManager.java:468-501 | the graph's edges are exactly the site's wait-for edges, with no empty rows |
| Fanout.NewSites | src/App.java:19-22 | creates fresh site objects numbered 1..n, each in its initial state |
| Fanout.FailOne | src/TransactionManager.java:251 | fails one site object; the others are unchanged |
| Fanout.RecoverOne | src/TransactionManager.java:267 | recovers one site object; the others are unchanged |
| Fanout.AbortOne | src/TransactionManager.java:291 | aborts at one site; the others are unchanged |
| Fanout.CommitOne | src/TransactionManager.java:316 | commits at one site; the others are unchanged |
| Fanout.ReadLockOne | src/TransactionManager.java:331 | asks one site for a read lock; the answer is whether it is granted |
| Fanout.WriteLockOne | src/TransactionManager.java:369 | asks one site for a write lock; the answer is whether it is granted |
| Fanout.WriteOne | src/TransactionManager.java:376 | writes at one site |
| Fanout.AbortAt | src/TransactionManager.java:290-292 | the site states become the abort of the transaction at its visited sites |
| Fanout.CommitAt | src/TransactionManager.java:315-317 | the site states become the commit of the transaction at its visited sites |
| Fanout.ReadOne | src/TransactionManager.java:331-336 | one site is asked to read; it serves iff it grants, and the value is its scratch value |
| Fanout.ReadSites | src/TransactionManager.java:327-343 | the read loop's site states and chosen site are those of the read pass |
| Fanout.SnapshotSites | src/TransactionManager.java:349-357 | the snapshot loop returns the site of the snapshot pass and that site's snapshot value |
| Fanout.LockSites | src/TransactionManager.java:364-370 | the lock loop's site states and verdict are those of the lock pass |
| Fanout.WriteSites | src/TransactionManager.java:371-378 | the write loop writes at every up host, and those are the sites returned |
| Fanout.MergeSites | src/TransactionManager.java:404-415 | the merged graph's edges are exactly the union of all sites' wait-for edges |
| Fanout.MergeInto | src/TransactionManager.java:407-414 | merging one graph into another unites their edges |
| Attempts.ReadTry | src/TransactionManager.java:324-344 | a read attempt keeps the registry's keys |
| Attempts.ReadOnlyTry | src/TransactionManager.java:346-359 | a snapshot attempt changes no site and no transaction |
| Attempts.WriteTry | src/TransactionManager.java:361-382 | a write attempt keeps the registry's keys |
| Attempts.Attempt | src/TransactionManager.java:232-244 | retrying an operation keeps the registry's keys |
| Attempts.Pass | src/TransactionManager.java:221-247 | a retry pass keeps only operations it was given, never more of them |
| Attempts.ReadTrySpec | src/TransactionManager.java:324-344 | the read succeeds iff some up host serves it; the first such host is visited and its scratch value reported; a failed read changes neither the registry nor the output |
| Attempts.ReadTryHit | src/TransactionManager.java:327-343 | a read found at a site reports that site's scratch value from before the pass and visits it |
| Attempts.ReadTryIff | src/TransactionManager.java:324-344 | a read goes through exactly when some up hosting site serves it |
| Attempts.ReadOnlyTrySpec | src/TransactionManager.java:346-359 | a snapshot read is answered by the first up host that can, with a version committed by the start time; otherwise nothing changes |
| Attempts.WriteTrySpec | src/TransactionManager.java:361-382 | the write goes through iff every up host grants the write lock; then all up hosts hold the value and are visited, and other sites are unchanged; otherwise only lock requests are made |
| Attempts.WriteTryVacuous | src/TransactionManager.java:364-381 | with no up host, the write goes through and changes nothing |
| Attempts.AttemptKeeps | src/TransactionManager.java:232-244 | an attempt keeps the registry's keys, only grows visited sets, keeps histories and statuses and extends the output |
| Attempts.PassKeeps | src/TransactionManager.java:221-247 | a retry pass keeps the registry's keys, histories and statuses and extends the output |
| Attempts.PassOrder | src/TransactionManager.java:221-246 | the operations still pending keep their relative order |
| Attempts.PassLive | src/TransactionManager.java:225-231 | no pending operation belongs to a transaction that has left |
| Attempts.PassQuiet | src/TransactionManager.java:221-247 | a pass over operations whose transactions have all left or are aborting drops them all and changes nothing |
| Attempts.AbortTxn | src/TransactionManager.java:287-296 | abort keeps the registry's ids, marks the transaction aborting and reports nothing |
| Attempts.AbortTxnSpec | src/TransactionManager.java:287-296 | abort marks the transaction, rolls back its scratch writes at visited sites, keeps histories and is idempotent |
| Attempts.FinishTxn | src/TransactionManager.java:304-322 | end removes the transaction; an aborting one changes no site and is reported aborted, any other is reported committed |
| Attempts.FinishTxnSpec | src/TransactionManager.java:304-322 | end removes the transaction; a commit adds its scratch values as versions at `ts` at visited sites and keeps every history ordered |
| Bookkeeping.AbortKeepsUp | src/TransactionManager.java:290-292 | aborting keeps the up/down flags in step with the sites |
| Bookkeeping.CommitKeepsUp | src/TransactionManager.java:315-317 | committing keeps the up/down flags in step with the sites |
| Bookkeeping.FailFlagged | src/TransactionManager.java:249-251 | the site flag goes down together with the site |
| Bookkeeping.RecoverFlagged | src/TransactionManager.java:266-268 | the site flag goes up together with the site |
| Bookkeeping.InitialHistoric | src/DataManager.java:168-176 | new sites' histories are ordered and all commits are at time -1 |
| Bookkeeping.Boot | src/TransactionManager.java:96-100 | ten fresh sites in their initial state, all flagged up, with ordered histories |
| Coordination.Marked | src/TransactionManager.java:253-262 | marking victims keeps the registry's keys |
| Coordination.MarkedNext | src/TransactionManager.java:253-262 | looking at one more transaction marks it to abort iff it is read-write, not already aborting, and visited the failed site |
| Coordination.FailKeeps | src/TransactionManager.java:249-264 | after failure plus aborts, every site's histories and status are those of the failed row |
| Coordination.WaitFor | src/TransactionManager.java:404-415 | the merged graph has exactly the union of the sites' edges |
| Coordination.RowsRegistered | src/TransactionManager.java:424-426 | every graph row belongs to a registered transaction |
| Coordination.Youngest | src/TransactionManager.java:421-433 | returns -1 iff no transaction is on a cycle; otherwise a transaction on a cycle with the latest start time among them |
| Coordination.Victim | src/TransactionManager.java:402-433 | over the sites' merged graph: -1 iff no cycle; otherwise the youngest transaction on a cycle |
| Coordination.TransactionManager.constructor | src/TransactionManager.java:88-113 | every site up and initial, empty registry, empty queue, clock 0; every history is ordered and holds only commits at time -1 |
| Coordination.TransactionManager.Begin | src/TransactionManager.java:298-302 | registers the transaction with the current time, not aborting, no visited site |
| Coordination.TransactionManager.SubmitRead | src/TransactionManager.java:190-203 | appends a read at the transaction's start time (a snapshot read for a read-only transaction) to the queue; a transaction that is to abort is ignored, whatever variable it names |
| Coordination.TransactionManager.SubmitWrite | src/TransactionManager.java:204-215 | appends a write at the transaction's start time to the queue, unless the transaction is to abort, in which case the command is dropped whatever variable it names |
| Coordination.TransactionManager.AskRead | src/TransactionManager.java:327-342 | the sites change as the read pass says; the chosen site serves its scratch value |
| Coordination.TransactionManager.AskLocks | src/TransactionManager.java:364-370 | the sites and verdict are those of the lock pass |
| Coordination.TransactionManager.PutWrites | src/TransactionManager.java:371-378 | the sites are written as the write pass says; the up hosts are returned |
| Coordination.TransactionManager.AbortSites | src/TransactionManager.java:290-292 | the sites become the abort at the visited sites |
| Coordination.TransactionManager.CommitSites | src/TransactionManager.java:315-317 | the sites become the commit at the visited sites, at the current time |
| Coordination.TransactionManager.Read | src/TransactionManager.java:324-344 | the new world and answer are those of the read attempt |
| Coordination.TransactionManager.Served | src/TransactionManager.java:334-336 | a served read visits its site and reports the value; the sites do not change |
| Coordination.TransactionManager.ReadOnly | src/TransactionManager.java:346-359 | the new world and answer are those of the snapshot attempt; an answer is the value of the latest version committed at the answering site by the transaction's start time |
| Coordination.TransactionManager.Write | src/TransactionManager.java:361-382 | the new world and answer are those of the write attempt |
| Coordination.TransactionManager.Dispatch | src/TransactionManager.java:232-244 | the operation is run by its kind, as the attempt says |
| Coordination.TransactionManager.ExecuteReadWrite | src/TransactionManager.java:221-247 | the new world and pending queue are those of one retry pass |
| Coordination.TransactionManager.Retry | src/TransactionManager.java:224-244 | one operation of the buffer is dropped or tried once, and the whole pass is still what is left after it |
| Coordination.TransactionManager.Abort | src/TransactionManager.java:287-296 | the new world is the abort of the transaction |
| Coordination.TransactionManager.Fail | src/TransactionManager.java:249-264 | `fail` of a down site, or of the never-used slot 0, changes nothing; a failing up site goes down with its flag, every read-write transaction that visited it and is not already aborting is marked to abort, and no history or status changes elsewhere |
| Coordination.TransactionManager.AbortVictims | src/TransactionManager.java:253-262 | every read-write, not yet aborting transaction that visited the failed site is marked to abort; histories, statuses and the failed site are kept |
| Coordination.TransactionManager.AbortIfVictim | src/TransactionManager.java:254-261 | one transaction is aborted iff it is a victim of the failure, its new world being exactly AbortTxn of the old one (otherwise nothing changes); histories, statuses and the failed site are kept |
| Coordination.TransactionManager.AbortVictim | src/TransactionManager.java:256-259 | aborting a victim of the failure: its new world is exactly AbortTxn of the old one, only its mark changes in the registry, and the failed site, statuses and histories are kept |
| Coordination.TransactionManager.Recover | src/TransactionManager.java:266-269 | the site is recovered and its flag set up |
| Coordination.TransactionManager.Finish | src/TransactionManager.java:304-322 | the new world is the end of the transaction at the current time; every history stays newest first with no commit later than now |
| Coordination.TransactionManager.DetectDeadLock | src/TransactionManager.java:402-440 | without a cycle nothing changes and -1 is returned; otherwise the youngest transaction on a cycle is aborted |
| Coordination.TransactionManager.Resolve | src/TransactionManager.java:119 | a deadlock check keeps the clock, the registered ids, every abort mark, the output and every committed history |
| Coordination.TransactionManager.Unblock | src/TransactionManager.java:119-121 | the deadlock check and its extra pass keep the clock, the registered ids, every abort mark and the histories; output only grows |
| Coordination.TransactionManager.Settle | src/TransactionManager.java:221-247 | a retry pass: the new world and buffer are exactly Pass of the old ones; it keeps the clock, the registered ids, every abort mark and the histories; output only grows |
| Coordination.TransactionManager.Apply | src/TransactionManager.java:161-216 | a command keeps the model valid; begin adds, end removes the transaction, others keep the registry's keys; output only grows |
| Coordination.TransactionManager.SiteChange | src/TransactionManager.java:249-269 | a fail line (site 0..10) or recover line (site 1..10) keeps the registered ids and reports nothing |
| Coordination.TransactionManager.Close | src/TransactionManager.java:131-132 | the tail of a line: a retry pass, then the clock advances by one; histories stay ordered up to the old time |
| Coordination.TransactionManager.Tick | src/TransactionManager.java:132 | the clock advances by exactly one and nothing else changes |
| Coordination.TransactionManager.Step | src/TransactionManager.java:116-135 | one input line: deadlock check, command, retry pass and tick; the clock advances by one, and every history stays ordered with no commit after the previous tick |

## Left out

- Input parsing (`ParseLine`, `ParseID`, the text handling of `ParseCommand`) and the reading loop in `Run`: commands arrive as the `Command` datatype, one `Step` per line.
- `App.java`'s file and console handling, and `BufferedWriter` with its `IOException` handling: output is a sequence of `Output` records, not formatted text.
- `dump`: `dump()` and `dump(i)` only print (src/TransactionManager.java:271-279). `dump(xj)` calls `DataManager.DumpOne`, which passes a `CommittedValues` object to a `%d` format (src/DataManager.java:213), so Java throws `IllegalFormatConversionException` and the program ends. The model runs every `Dump` command as a no-op and does not model that crash.
- The `Error:` diagnostic lines that a site prints when a read or write is attempted without its lock (src/DataManager.java:304, 317): only the failed response is modelled.
- Java `HashMap` iteration order:
  - The model states the order-free properties, so they hold for any order.
  - When several transactions on a cycle share the latest start time, `Youngest` picks an arbitrary one of them; the source's pick depends on hash order.
- `int` overflow of times and values: integers are unbounded.
- Conditions under which the source would crash are preconditions here:
  - a read at a site that does not store the variable (`upToDate.get` returns null);
  - an operation or `end` for an unregistered transaction;
  - `recover` of a site outside 1..10 (`DM[siteID]` is null or out of bounds), and `fail` of a site outside 0..10. `fail(0)` does not crash: slot 0 of `siteStatus` exists and is never set (src/TransactionManager.java:81, 98), so the guard at src/TransactionManager.java:250 makes it a no-op, and the model admits it so;
  - `R`/`W` of a variable outside 1..20 by a transaction that is not aborting: the operation is queued and its later attempt looks up a missing placement entry. The same command from an aborting transaction is dropped before that (src/TransactionManager.java:195, 210), and the model admits it;
  - a deadlock check whose graph names an unregistered transaction.
- `Coordination.TransactionManager.Step` requires every wait-for edge's source to be registered, but does not prove that this is maintained from step to step. A transaction that ends while still queued at a site where it held no lock stays in that site's wait list.
- `Coordination.TransactionManager.Step`: states only that the model stays valid, the clock advances by one, the registry's keys change as the command dictates and the output only grows. The exact world after a line follows from its parts' contracts but is not stated as one formula.
- AbortVictims: states the marked registry, the failed site's state and every site's status and history, but not the other sites' scratch values and lock tables after the victims' aborts. The source aborts victims in HashMap iteration order, and that order decides which queued requests are granted by each abort's lock reassignment; the per-victim step, AbortIfVictim, does state its whole new world as AbortTxn.
- `Coordination.TransactionManager.Fail`: states the failed site's new state, the statuses and histories of all sites and the marked registry. It does not state the other sites' scratch values and lock tables after the victims' aborts.
- `Coordination.TransactionManager.Begin` requires a transaction number that is not negative (T0 included). Negative numbers, which `Integer.parseInt` would accept from a line such as `begin(T-1)`, are left out: -1 is also the "no victim" answer of the deadlock check (src/TransactionManager.java:422-434), so such a transaction could never be picked as a victim.
- The read-only read follows the code: it takes the first version committed by the start time. If a failure makes that version stale, the read fails rather than trying older versions.
