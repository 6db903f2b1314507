# NexusKit core-service: a verified model

NexusKit is an identity and permission hub: subsystems report their permissions and roles, users log
in through it, and it serves each user a menu tree. This project models the three parts of
`core-service` that carry state over time and proves what they keep.

* **The permission forest.** Permissions are rows with an optional parent. Recursive queries walk the
  parents and children, a tree builder nests the rows a user may see, a cache holds the result for
  five minutes, and menu edits move, add and remove rows.
* **Permission and role sync.** A subsystem reports its full manifest, and the service inserts, updates
  and takes offline (or deletes) rows until the tables match it.
* **The session protocol.** Login, rotating refresh tokens, bulk revocation, password changes and the
  access check work on Redis keys with lifetimes. Signed service-to-service requests work on a nonce
  record with a lifetime.

## How it is laid out

| file | content |
|---|---|
| `Prelude.dfy` | options, results, counting facts about sequences |
| `Forest.dfy` | parent relations over any key: depth, cycles, re-parenting |
| `RecursiveQueries.dfy` | the recursive SQL queries as repeated joins over a table scan |
| `Manifest.dfy` | a reported manifest and its layering by parent code |
| `Permissions.dfy` | the permission table, its constraints and the repository class |
| `PermissionSync.dfy` | the permission sync and what it means |
| `MenuEdits.dfy` | the re-parenting check, menu creation, update, deletion, and runs of edits and syncs |
| `MenuTree.dfy` | linked nodes, the tree value they represent, filtering by grants |
| `MenuCache.dfy`, `MenuTreeService.dfy` | what a user may see, the cache over time, the service class |
| `MenuStaleness.dfy` | when a cached tree is still right for a changed database |
| `RoleSync.dfy` | the role tables and the role sync |
| `Sessions.dfy`, `SessionRuns.dfy` | the session state machine, its invariant and the theorems about runs |
| `SessionEffects.dfy` | what each request leaves behind, record by record |
| `AuthService.dfy` | the auth service and the access dependency as a class that refines the state machine |
| `RefreshRaces.dfy` | refreshes that overlap, with reading and writing as separate steps |
| `RequestSigning.dfy` | signed requests: time window, nonce record, runs |

Tables and Redis keys are maps held by classes whose methods change them as the program does, and each
such method is tied to a relation or function on states about which the theorems are proved. A
transaction keeps a copy of the tables and puts it back on failure. Iterating over a Python set, the
order of a table scan and the order of equal `sort` values are arbitrary: results hold for all of them.
Access-token lifetime is a parameter `ttl`, positive and at most the seven days of a refresh record.

## What the model shows about the code

Most of the properties hold as the design promises. These hold only under a condition, and the exact
condition is proved:

* Menu creation validates against the placeholder id -1, so a row may name its own future id as parent.
  A run of edits stays acyclic exactly when no creation does (`RunAcyclicExact`, `FirstRowUnderItself`).
  On a cycle the descendant query never ends, and the batch query ends exactly when no root lies on a cycle
  (`RecursionStopsUnlessOnCycle`, `BatchStopsUnlessOnCycle`); edits and syncs are modelled wherever their
  queries end.
* A new manifest item under a parent that is already stored is never inserted: the layering starts from
  items without a parent and sees new items only. The sync creates exactly the codes whose chain runs
  through new codes to a root, and stores the whole manifest exactly when all new codes are of that kind
  (`EverythingStoredExactly`, `BelowStoredIsNotReached`).
* A bulk revoke does not blacklist access tokens. Until the next login none is accepted
  (`BulkRevokeLocksOut`). Some continuation accepts an old token again exactly if it was unexpired, not
  blacklisted and at its user's version, and the revoke came with neither a password change nor the user's
  deletion (`RevokedReturnsExactly`); `LoginReadmitsExactly` gives the condition at a given login, and
  `LoginReadmitsRevoked` is a concrete run.
* A refresh token carries no version, so a refresh always mints version 1. The new access token is
  accepted exactly for an active user still at version 1 (`RefreshedAccepted`). The refresh of a user at a
  later version leaves no accepted token that was not bulk-revoked (`RefreshLocksOutLaterVersions`, `RefreshAfterPasswordChange`).
* Two refreshes of one token that overlap can both succeed, exactly when both read the record before
  either writes (`SecondExchangeExactly`).
* On a table without cycles a user sees no more than a super admin (`UserSeesNoMoreThanAdmin`). On any
  selection of rows this holds for all grants exactly if every row missing from the full tree is its own
  parent (`FilterShowsNoMoreExactly`, `RowBelowSelfLoop`).
* Eviction reaches the holders of roles that link a permission of the app. It misses a super admin whose
  roles link nothing (`SuperAdminKeepsStaleTree`) and a user whose last link a role sync has just removed
  (`RoleSyncMissesUser`, `RoleSyncReachesExactly`). The first read after a change is right exactly if no tree
  is cached, or the user is reached, or the user is shown the same buttons and items as before
  (`StaleExactly`).
* The access guide says a nonce is usable once within the 300 s window
  (`docs/NexusKit 第三方系统接入手册.md`, section 7.4). The nonce record lives 300 s from the acceptance, while a request stamped in the
  future stays acceptable longer. An identical request is accepted again exactly when its timestamp is at least
  the nonce lifetime minus the window after the first acceptance (`SecondAcceptanceExactly`).
* A role sync fails, and changes nothing, exactly when there is a new role and its code is held by another
  app, or the app is not registered, or it names an active permission twice, or when a dropped role is still held
  (`SyncRoles`, `RepeatedPermissionIsRefused`). `batch_soft_delete` for roles deletes the rows, although it is described as taking them offline.

## Model

| member | source | states |
|---|---|---|
| `RecursiveQueries.DescendantsExactlyOnce` | core-service/domains/identity/repository.py:32-47 | for a node off every cycle the descendant query lists the node and every row below it, each exactly once, and nothing else, for every scan order |
| `RecursiveQueries.DescendantsMirrorAncestors` | core-service/domains/identity/repository.py:32-64 | on an acyclic table x is listed below m if and only if m is listed above x |
| `RecursiveQueries.HasDescendantsExact` | core-service/domains/identity/repository.py:66-70 | the row-count test finds descendants exactly when some row names the node as parent |
| `RecursiveQueries.BatchIsUnion` | core-service/domains/identity/repository.py:129-143 | the batch query as a set is the union of the single-root queries |
| `RecursiveQueries.RecursionStopsUnlessOnCycle` | core-service/domains/identity/repository.py:38-47 | on any table the recursion from a node stops if and only if the node is not on a cycle |
| `RecursiveQueries.BatchStopsUnlessOnCycle` | core-service/domains/identity/repository.py:133-142 | on any table the batch recursion stops if and only if no root lies on a cycle |
| `Forest.ReparentExact` | core-service/domains/identity/service.py:642-656 | moving a node under another keeps the forest acyclic if and only if the new parent is not at or below the node |
| `Forest.EndsUnlessBelowCycle` | core-service/domains/identity/repository.py:49-64 | the walk up from a node ends if and only if the node is not on or below a cycle |
| `Permissions.PermissionRepository.BatchCreate` | core-service/domains/identity/repository.py:95-100 | all drafts are stored under the next ids, or a constraint is broken and the rows are as before |
| `Permissions.StoredExactly` | core-service/domains/identity/repository.py:95-100 | row by row: each draft is stored under its own next id and every other row is as it was |
| `Permissions.PermissionRepository.BatchSoftDelete` | core-service/domains/identity/repository.py:115-127 | the active rows are the active rows of before without the listed ones, listed rows change in status and timestamp only, all other rows and the whole parent relation stay, and the count is the number of rows that were listed |
| `Permissions.PermissionRepository.GetDescendantIds` | core-service/domains/identity/repository.py:32-47 | every id at or below the node exactly once |
| `Permissions.PermissionRepository.GetDescendantIdsBatch` | core-service/domains/identity/repository.py:129-143 | exactly the ids at or below some root |
| `Permissions.PermissionRepository.CheckHasDescendants` | core-service/domains/identity/repository.py:66-70 | true exactly when some row names the stored node as parent |
| `Prelude.LastReportWins` | core-service/domains/identity/service.py:355 | in the dictionary keyed by code, for permissions and roles, the last of several items that report one code counts |
| `Manifest.TopoSort` | core-service/domains/identity/service.py:297-323 | terminates; layer k holds exactly the items at depth k, each once; every item with a depth is in a layer |
| `Manifest.ParentOneLayerUp` | core-service/domains/identity/service.py:315-321 | an item of a later layer has its parent in the layer directly before; layer 0 is the items without a parent |
| `Manifest.LayersComplete` | core-service/domains/identity/service.py:310-323 | the first layer holds every item without a parent, and every child of an item of one layer is in the next |
| `PermissionSync.InsertLayer` | core-service/domains/identity/service.py:378-408 | a layer's rows all arrive under looked-up parents, or another app holds a code; the missing-parent error never occurs |
| `PermissionSync.InsertPhase` | core-service/domains/identity/service.py:373-408 | one row for each new code whose chain reaches the root through new codes, old rows kept; fails exactly when another app holds such a code |
| `PermissionSync.UpdateRow` | core-service/domains/identity/service.py:415-431 | the row carries the item's fields and is active; reported as updated exactly when a field differed or it was inactive |
| `PermissionSync.UpdatePhase` | core-service/domains/identity/service.py:411-433 | every common row refreshed, no other row touched, the two counters are the sizes of the two groups |
| `PermissionSync.PrunePhase` | core-service/domains/identity/service.py:437-450 | exactly the dropped rows and all rows below them go inactive; the counter is their number |
| `PermissionSync.SyncPermissions` | core-service/domains/identity/service.py:334-468 | for any table on which the query below the dropped rows ends: succeeds exactly when no other app holds a code to insert; on failure the rows are as before; on success every old row is settled, one row is added per reached code and the four counters count exactly those groups; an acyclic table stays acyclic |
| `PermissionSync.SyncKeepsSound` | core-service/domains/identity/service.py:334-468 | a sync keeps codes unique, parents stored and the table acyclic |
| `PermissionSync.SyncOutcome` | core-service/domains/identity/service.py:367-450 | afterwards a row of the app is inactive exactly when it, or a row above it, is not in the manifest; reported rows carry manifest fields; added rows are active and reached and hang where the manifest says |
| `PermissionSync.AddedRowExactly` | core-service/domains/identity/service.py:378-404 | column by column, an added row: its app, code, manifest fields, active, stamped, without a parent if none or an empty one is reported and otherwise directly below the app's row of the reported parent code |
| `PermissionSync.OldRowExactly` | core-service/domains/identity/service.py:411-450 | column by column, a row that was there: id, app, code and parent kept, fields overwritten exactly if reported, active exactly if reported or active before and no row at or above it is missing from the manifest |
| `PermissionSync.PrunedByParent` | core-service/domains/identity/service.py:437-450 | a row goes offline exactly if it is dropped itself or its parent goes offline |
| `PermissionSync.ReachedByParent` | core-service/domains/identity/service.py:310-323 | a code is inserted exactly if it is reported, new to the app, and without a parent code or below an inserted one |
| `PermissionSync.CountedRows` | core-service/domains/identity/service.py:411-450 | which stored rows count as updated, unchanged and pruned, by their columns |
| `PermissionSync.OtherAppsOutcome` | core-service/domains/identity/service.py:437-450 | rows of other apps change only in status, and only below a dropped row |
| `PermissionSync.NothingLeftToInsert` | core-service/domains/identity/service.py:367-408 | after a sync no code of the same manifest is left to insert |
| `PermissionSync.CodesAfterSync` | core-service/domains/identity/service.py:367-408 | the codes of the app afterwards are the old ones and the reached ones |
| `PermissionSync.EverythingStoredExactly` | core-service/domains/identity/service.py:310-323 | a sync stores every reported code if and only if each new one hangs by new codes below a reported root |
| `PermissionSync.BelowStoredIsNotReached` | core-service/domains/identity/service.py:310-323 | no new item directly below a row that is already stored is ever inserted |
| `PermissionSync.SyncIdempotent` | core-service/domains/identity/service.py:334-468 | a second run cannot fail, inserts nothing, prunes the same rows and leaves the table as it is up to timestamps |
| `PermissionSync.SyncOrderIndependent` | core-service/domains/identity/service.py:367-376 | two runs that iterate the code sets in different orders end with the same rows up to the numbering of the added ones |
| `MenuEdits.ValidateMenuRelation` | core-service/domains/identity/service.py:642-656 | accepts exactly a missing parent or one that is neither the node nor below it |
| `MenuEdits.ValidationExact` | core-service/domains/identity/service.py:642-656 | for a stored node and parent in an acyclic table it accepts if and only if re-parenting leaves the table acyclic |
| `MenuEdits.MenuService.CreateMenu` | core-service/domains/identity/service.py:660-669 | which drafts are accepted, and that a refused one leaves the rows alone; is a step of the runs of edits |
| `MenuEdits.MenuService.UpdateMenu` | core-service/domains/identity/service.py:671-682 | which updates are accepted; on success, column by column, a given value is stored and a column not given kept; all other rows stay, and a refused update changes nothing; is a step of the runs of edits |
| `MenuEdits.MenuService.DeleteMenu` | core-service/domains/identity/service.py:684-693 | removes the row exactly when no row names it as parent; is a step of the runs of edits |
| `MenuEdits.MenuService.SyncPermissions` | core-service/domains/identity/service.py:334-468 | the sync is a step of the runs of edits |
| `MenuEdits.CreateExact` | core-service/domains/identity/service.py:660-669 | a creation keeps the table acyclic if and only if its parent is already stored |
| `MenuEdits.CreatesExactly` | core-service/domains/identity/service.py:660-669 | a creation is accepted exactly with an app, a free code and a parent that is stored or the row's own future id |
| `MenuEdits.UpdatesExactly` | core-service/domains/identity/service.py:671-682 | an update without a null for a required column is accepted exactly with a code no other row has, a stored parent, and a checked parent that is none or not at or below the row |
| `MenuEdits.NullsExactly` | core-service/domains/identity/models.py:161-205 | an update is refused for a null in exactly seven columns: code, name, type, external flag, sort, visibility and status |
| `MenuEdits.FirstRowUnderItself` | core-service/domains/identity/service.py:664-665 | a concrete creation that passes the check and closes a cycle |
| `MenuEdits.UpdateKeepsAcyclic` | core-service/domains/identity/service.py:671-682 | every accepted update keeps the table acyclic |
| `MenuEdits.StepExact` | core-service/domains/identity/service.py:660-693 | any single edit or sync keeps the table acyclic if and only if it does not create a row under its own future id |
| `MenuEdits.RunConsistent` | core-service/domains/identity/models.py:161-205 | in every run from the empty table codes are unique and every parent is present |
| `MenuEdits.RunAcyclicExact` | core-service/domains/identity/service.py:642-693 | every table of a run of creations, updates, deletions and syncs is acyclic if and only if no creation names its own future id |
| `MenuTree.MakeNodes` | core-service/domains/identity/service.py:177-202 | first pass: one fresh node per menu row in input order, and exactly the non-empty codes of the button rows |
| `MenuTree.AttachNode` | core-service/domains/identity/service.py:205-211 | second pass, one node: it joins the children of its parent's node or the roots, all other lists unchanged |
| `MenuTree.BuildMenuTree` | core-service/domains/identity/service.py:170-213 | each node's children are exactly the rows naming it as parent in input order, the roots exactly the rows whose parent is no menu row, the buttons exactly the non-empty button codes |
| `MenuTree.NestedNodes` | core-service/domains/identity/service.py:203-211 | after both passes a row's node is among another's children exactly if the row names that row as parent, and among the roots exactly if it has no parent among the menu rows |
| `MenuTree.KidsExactly` | core-service/domains/identity/service.py:203-211 | below a menu row hang exactly the menu rows that name it as parent |
| `MenuTree.RootsExactly` | core-service/domains/identity/service.py:203-211 | at the top stand exactly the menu rows without a parent among the menu rows |
| `MenuTree.ItemColumns` | core-service/domains/identity/service.py:180-202 | column by column the item that a row becomes, and which kinds of row are nodes and buttons |
| `MenuTree.BuiltTreeIsMenuTree` | core-service/domains/identity/service.py:203-213 | serialising the linked nodes gives the tree value that is defined by recursion over depth, whatever the rows |
| `MenuTree.ChildrenExactly` | core-service/domains/identity/service.py:203-213 | anywhere in the tree the children of a node are exactly the items that name its id as parent |
| `MenuTree.TopExactly` | core-service/domains/identity/service.py:203-213 | at the top of the tree stand exactly the items without a parent among the menu rows |
| `MenuTree.TreeSorted` | core-service/domains/identity/service.py:158-162 | sorted rows give sorted siblings everywhere in the tree |
| `MenuTree.TreeHoldsEachRowOnce` | core-service/domains/identity/service.py:203-213 | a menu row occurs in the tree once if it reaches a root, and otherwise not at all |
| `MenuTree.TreeItemsExact` | core-service/domains/identity/service.py:177-213 | flattening gives the item of each root-reaching menu row once and no other item |
| `MenuTree.AcyclicTreeIsPermutation` | core-service/domains/identity/service.py:170-213 | on acyclic rows the flattened tree is a permutation of the menu rows |
| `MenuTree.MissingExactlyBelowCycles` | core-service/domains/identity/service.py:203-213 | the menu rows missing from the tree are exactly those on or below a cycle |
| `MenuTree.FilterCommutes` | core-service/domains/identity/service.py:134-162 | if the granted menu rows are closed upward, the tree of the granted rows is the full tree cut down to them |
| `MenuTree.FilterShowsNoMore` | core-service/domains/identity/service.py:134-162 | on acyclic rows a user sees no node and no button that the full tree lacks |
| `MenuTree.FilterShowsNoMoreExactly` | core-service/domains/identity/service.py:134-162 | on any rows, no grants show a row that the full tree lacks if and only if every row the full tree lacks is its own parent |
| `MenuTree.RowBelowSelfLoop` | core-service/domains/identity/service.py:203-211 | a row below one that is its own parent: shown when granted alone, missing from the full tree |
| `MenuTree.MenuForestAcyclic` | core-service/domains/identity/service.py:170-213 | menu rows selected from an acyclic table form an acyclic menu forest |
| `MenuCache.UserTreeIsPrunedAdminTree` | core-service/domains/identity/service.py:134-162 | for a user whose visible menu rows are closed upward, the pruned super admin tree is a correct answer for the user |
| `MenuCache.EveryVisibleMenuOnce` | core-service/domains/identity/service.py:134-213 | on a table without cycles a build holds every visible menu row exactly once and no other row |
| `MenuCache.ServedItems` | core-service/domains/identity/service.py:134-213 | on a table without cycles the nodes are exactly the items of the visible menu rows |
| `MenuCache.ServedExactly` | core-service/domains/identity/service.py:134-213 | on any table the nodes are exactly the visible menu items whose chain of visible parents ends |
| `MenuCache.UserSeesNoMoreThanAdmin` | core-service/domains/identity/service.py:134-162 | on a table without cycles a user is served no node and no button that a super admin is not served |
| `MenuCache.ServedIsRecent` | core-service/domains/identity/service.py:125-168 | in every run whatever is served was built from the database as it stood at some moment of the preceding 300 seconds |
| `MenuCache.FirstReadIsFresh` | core-service/domains/identity/service.py:255-275 | the first read of an evicted user after the change is built from the database of that moment |
| `MenuCache.SyncReachesItsUsers` | core-service/domains/identity/service.py:255-275 | after a permission sync the eviction reaches every user, super admins apart, who saw a row of the app before or sees one now |
| `MenuCache.RoleSyncReachesExactly` | core-service/domains/identity/service.py:255-275 | after a role sync the eviction reaches a user if and only if the sync leaves the user a role that links a permission of the app |
| `MenuCache.RoleSyncMissesUser` | core-service/domains/identity/service.py:595-603 | a concrete role sync that takes a user's last link away: the eviction misses the user, who is served a button the database no longer gives |
| `MenuStaleness.StaleExactly` | core-service/domains/identity/service.py:255-275 | the first read after a change is right for the new database if and only if no tree is cached, or the eviction reaches the user, or the new database shows the user the same buttons and items as the one the cached tree was built from |
| `MenuStaleness.StillRight` | core-service/domains/identity/service.py:111-168 | on any tables keyed by id, with or without cycles, a tree built from one database is a build of another if and only if both show the user the same buttons and items |
| `MenuStaleness.RestampingShowsSame` | core-service/domains/identity/service.py:428-433 | a change of timestamps alone shows nobody anything else |
| `MenuStaleness.VisibleIsShown` | core-service/domains/identity/service.py:134-213 | on a table without cycles the shown items are exactly the visible menu items |
| `MenuCache.SuperAdminKeepsStaleTree` | core-service/domains/identity/service.py:136-142 | a concrete super admin whom the eviction misses and who is served a tree that the database no longer gives |
| `MenuCache.ServedButtons` | core-service/domains/identity/service.py:181-183 | the served buttons are exactly the codes of the visible button rows |
| `MenuCache.ServedIsVisible` | core-service/domains/identity/service.py:134-162 | every node served from a build is an active row of the app that the user may see, with its stored fields |
| `MenuCache.VisibleExactly` | core-service/domains/identity/service.py:134-160 | seeing a row takes an active row of the app and a role of the user that is super admin there or links the row |
| `MenuCache.VisibleColumns` | core-service/domains/identity/service.py:180-202 | a visible menu item shows the columns of an M, C or L row, a visible button is an F row with a code |
| `MenuCache.ServedNesting` | core-service/domains/identity/service.py:134-213 | anywhere in a served tree the children of a node are exactly the visible items that name its id as parent |
| `MenuCache.ServedTop` | core-service/domains/identity/service.py:134-213 | at the top of a served tree stand exactly the visible items without a visible menu row as parent |
| `MenuCache.ServedSorted` | core-service/domains/identity/service.py:134-213 | in a served tree siblings come by ascending order number |
| `MenuCache.EvictedExactly` | core-service/domains/identity/service.py:260-268 | the eviction reaches exactly the holders of a role that is linked to a row of the app, active or not |
| `MenuCache.SyncedTreeShowsManifest` | core-service/domains/identity/service.py:334-468 | a build after a sync shows only reported rows that are not under a dropped row, with the manifest's fields |
| `MenuTreeService.SelectVisible` | core-service/domains/identity/service.py:137-160 | each visible row once, by ascending sort |
| `MenuTreeService.BuildMenuData` | core-service/domains/identity/service.py:162-166 | linking and serialising the nodes gives the tree value and the button codes |
| `MenuTreeService.MenuTreeService.GetUserMenuTree` | core-service/domains/identity/service.py:111-168 | a read is a read step of the cache state machine: a live entry is returned, otherwise a build is returned and stored for 300 s |
| `MenuTreeService.MenuTreeService.ClearAppCacheForUsers` | core-service/domains/identity/service.py:255-275 | a cached tree goes exactly if it is of this app and its user holds a role linked to a permission row of the app, active or not; every other entry stays as it is |
| `MenuTreeService.MenuTreeService.SyncPermissionsAndEvict` | core-service/domains/identity/service.py:334-460 | succeeds, fails, changes the rows and counts as the sync does; a successful one is a change with eviction, a failed one a change without |
| `MenuTreeService.MenuTreeService.SyncRolesAndEvict` | core-service/domains/identity/service.py:484-603 | succeeds, fails, changes the tables and counts as the role sync does; a successful one is a change with eviction, a failed one a change without |
| `RoleSync.RoleStore.BatchCreate` | core-service/domains/identity/repository.py:161-166 | stores all drafts, and succeeds exactly when all codes are free and distinct and the app is registered |
| `RoleSync.RoleStore.ReplaceRolePermissions` | core-service/domains/identity/repository.py:178-188 | the role's links become exactly the given ids, and it fails exactly when an id is repeated |
| `RoleSync.RoleStore.DeleteRoles` | core-service/domains/identity/repository.py:168-176 | a deleted role leaves no row, no link and no holder behind, every other role keeps its row, links and holders, and the count is by how many roles the table shrank |
| `RoleSync.NamedIdsAreTargets` | core-service/domains/identity/service.py:538-541 | the ids looked up for an item are exactly the app's active permissions that it names |
| `RoleSync.RepeatedIds` | core-service/domains/identity/service.py:538-543 | the id list of an item has a repetition exactly when the item names an active permission twice |
| `RoleSync.RepeatedPermissionIsRefused` | core-service/domains/identity/service.py:538-543 | a manifest whose new role names one active permission twice is refused |
| `RoleSync.CreatePhase` | core-service/domains/identity/service.py:524-545 | creates and links a role for each new code, and fails exactly when some new role cannot be created |
| `RoleSync.BindRole` | core-service/domains/identity/service.py:536-545 | links exactly the active permissions that the item names, and fails exactly when one is named twice |
| `RoleSync.AlignRole` | core-service/domains/identity/service.py:552-575 | name and links become the reported ones; counted as updated exactly when one of them differed |
| `RoleSync.AlignPhase` | core-service/domains/identity/service.py:548-575 | all common roles aligned, all other roles kept, counters exact |
| `RoleSync.DeletePhase` | core-service/domains/identity/service.py:579-593 | refuses exactly when a dropped role is held, otherwise deletes exactly the dropped roles and takes no role from any user |
| `RoleSync.SyncRoles` | core-service/domains/identity/service.py:484-611 | fails exactly when a creation is blocked or a dropped role is held, and then all tables are as before; on success each role of the app has its reported name and links, other apps keep roles and links, the user-role relation is unchanged and the counters are exact |
| `RoleSync.CodesAreReported` | core-service/domains/identity/service.py:504-516 | after a success the app's role codes are exactly the manifest's |
| `RoleSync.LinksAfter` | core-service/domains/identity/service.py:524-575 | a stored role survives exactly if it is another app's or reported; then a role of the app links what its item names, any other what it linked before |
| `RoleSync.RolesExactly` | core-service/domains/identity/service.py:524-593 | column by column: each role of the app has its reported name, is stamped and links exactly the active permissions its item names; other apps' roles keep row and links; holders stay; a role of the app survives exactly if it is reported |
| `RoleSync.RefusedExactly` | core-service/domains/identity/service.py:524-593 | the reasons for a refusal, read off the tables |
| `RoleSync.ChangedExactly` | core-service/domains/identity/service.py:552-575 | which common codes count as updated |
| `RoleSync.RerunReportsNothing` | core-service/domains/identity/service.py:497-611 | an immediate rerun cannot fail and reports 0 created, updated and pruned and as many unchanged as there are distinct codes |
| `RoleSync.RerunChangesNothing` | core-service/domains/identity/service.py:497-611 | an immediate rerun leaves roles up to timestamps, links and holders as they are |
| `AuthService.QueueBlacklist` | core-service/domains/auth/service.py:138-142 | the queued writes blacklist exactly the access tokens of the valid records |
| `AuthService.AuthService.RevokeAllSessions` | core-service/domains/auth/service.py:130-144 | every bound access token is blacklisted for the full token lifetime and the user's records are gone, nothing else changes |
| `AuthService.AuthService.RevokeAllUserTokens` | core-service/core/security.py:105-110 | the user's records are gone, the blacklist is unchanged |
| `AuthService.AuthService.IssueTokenPair` | core-service/domains/auth/service.py:146-157 | the record of the new refresh token names the new access token and lives seven days |
| `AuthService.AuthService.Login` | core-service/domains/auth/service.py:67-81 | succeeds exactly for a stored user with that name and that password and an active, unexpired grant for the app; a refused login changes nothing; a successful one is the login step of that user |
| `AuthService.AuthService.GetByUsername` | core-service/domains/auth/repository.py:16-18 | finds a user with the name exactly if there is one |
| `AuthService.AuthService.Refresh` | core-service/domains/auth/service.py:85-118 | rotates a valid record, refuses a used one unchanged, and revokes everything if the record is gone |
| `AuthService.AuthService.RefreshFromToken` | core-service/domains/auth/service.py:120-126 | only an unexpired refresh token of ours is acted on; the new access token always carries version 1 |
| `AuthService.AuthService.ChangePassword` | core-service/domains/auth/service.py:48-57 | is the password step: version raised and records dropped exactly when the old password is right |
| `AuthService.AuthService.AdminResetPassword` | core-service/domains/identity/service.py:1084-1096 | the same without the old password |
| `AuthService.AuthService.ForceLogout` | core-service/domains/auth/service.py:61-63 | is the logout step |
| `AuthService.AuthService.AdminSetActive` | core-service/domains/identity/service.py:1055-1071 | sets the flag, and on deactivation revokes all records |
| `AuthService.AuthService.AdminDeleteUser` | core-service/domains/identity/service.py:1073-1082 | removes the user and all records |
| `AuthService.AuthService.Register` | core-service/domains/auth/service.py:33-44 | refused with the state kept when the e-mail address is taken, refused by the constraint when the name is; otherwise a new active user starts at version 1 under an id never used before |
| `AuthService.AuthService.AdminCreateUser` | core-service/domains/identity/service.py:1026-1044 | refused with the state kept when the e-mail address or the name is taken; otherwise a user with the given status starts at version 1 |
| `AuthService.AuthService.HasValidSession` | core-service/domains/auth/dependencies.py:90-99 | found exactly when the user has a live valid record |
| `AuthService.AuthService.GetCurrentUser` | core-service/domains/auth/dependencies.py:40-114 | the exact verdict in check order; in production a request without the gateway's secret and headers is refused; for the bearer of an issued token, direct or through the gateway, success is exactly acceptance in the state machine |
| `AuthService.ClaimsExactly` | core-service/domains/auth/dependencies.py:55-82 | whom a request stands for: the gateway's headers with its secret, in production nothing else, otherwise the bearer's token |
| `AuthService.VerdictExactly` | core-service/domains/auth/dependencies.py:84-114 | claims pass exactly if the token is not blacklisted, a record is valid, and the user is stored, active and at the version |
| `AuthService.TokenClaims` | core-service/core/security.py:55-99 | the claims of the two kinds of token, and exactly which tokens decode |
| `SessionEffects.RefusedLogin` | core-service/domains/auth/service.py:70-74 | without the user, the right password or access to the app a login changes nothing |
| `SessionEffects.LoginEffect` | core-service/domains/auth/service.py:67-79 | exactly the records of other users stay, one of seven days is new, and exactly the tokens of the old ones are blacklisted for the token lifetime |
| `SessionEffects.RefreshEffect` | core-service/domains/auth/service.py:85-126 | the four outcomes of a refresh by records, lifetimes, blacklist and minted version |
| `SessionEffects.RevokeEffect` | core-service/core/security.py:105-110 | exactly the user's refresh records go, and the blacklist stays |
| `SessionEffects.PasswordEffect` | core-service/domains/auth/service.py:48-57 | a wrong old password changes nothing; otherwise the new password is stored, the version raised by one and the records go |
| `SessionEffects.AdministrationEffect` | core-service/domains/identity/service.py:1055-1101 | status, deletion and logout: what happens to the user row and when the records go |
| `SessionEffects.RegistrationEffect` | core-service/domains/auth/service.py:33-44 | a free address and name add one user at version 1, anything else adds none |
| `SessionEffects.WaitEffect` | core-service/domains/auth/service.py:106-111 | exactly the records and blacklist entries that have not reached their end stay |
| `Sessions.RevokeAllKeeps` | core-service/core/security.py:105-110 | a bulk revoke keeps the session invariant and leaves the user without a session |
| `Sessions.EndSessionsKeeps` | core-service/domains/auth/service.py:130-144 | ending all sessions keeps the invariant |
| `Sessions.RetireKeeps` | core-service/domains/auth/service.py:105-112 | retiring a record keeps the invariant |
| `Sessions.IssueKeeps` | core-service/domains/auth/service.py:146-157 | issuing a pair to a user without a session keeps the invariant |
| `Sessions.ElapseKeeps` | core-service/domains/auth/service.py:106-111 | the passing of time keeps the invariant: records and blacklist entries outlive the access tokens they answer for |
| `SessionRuns.StepKeeps` | core-service/domains/auth/service.py:33-157 | every request keeps the invariant |
| `SessionRuns.EveryTokenAccountedFor` | core-service/domains/auth/service.py:67-157 | in every reachable state each issued access token is expired, blacklisted to its end, bound to a live valid record or bulk-revoked, and a user has at most one valid record |
| `SessionRuns.NoTokenAhead` | core-service/domains/auth/dependencies.py:111-112 | no access token's version exceeds its user's current version |
| `SessionRuns.AcceptedExactly` | core-service/domains/auth/dependencies.py:84-114 | a token that was not bulk-revoked is accepted exactly if it is current and a live record names it; a bulk-revoked one needs some open session and no blacklist entry instead |
| `SessionRuns.AtMostOneAccepted` | core-service/domains/auth/dependencies.py:84-114 | at most one access token per user that was not bulk-revoked is accepted |
| `SessionRuns.RefreshAtMostOnce` | core-service/domains/auth/service.py:85-118 | after an exchange, in any continuation, a second use yields no pair; if the record is gone it drops every record of that user and nobody else's, otherwise it changes nothing |
| `SessionRuns.MarkerRefuses` | core-service/domains/auth/service.py:94-106 | for 15 s after the exchange, unless the user's records were swept, a second use changes nothing |
| `SessionRuns.VersionsOnlyGrow` | core-service/domains/auth/service.py:54 | in every run a user's version never decreases and a deleted user's id never comes back |
| `SessionRuns.PasswordChangeIsFinal` | core-service/domains/auth/service.py:48-57 | an access token issued before a password change or reset is accepted in no continuation |
| `SessionRuns.BulkRevokeLocksOut` | core-service/core/security.py:105-110 | after any bulk revoke no access token of the user is accepted until the next login |
| `SessionRuns.LoginReadmitsExactly` | core-service/domains/auth/service.py:67-81 | a login lets in a token issued before it if and only if the token is current, not blacklisted and named by no live record |
| `SessionRuns.RevokedReturnsExactly` | core-service/core/security.py:105-110 | after a bulk revoke some continuation accepts an old token again if and only if it is unexpired, not blacklisted and at the user's version, and the revoke came with neither a password change nor the user's deletion |
| `SessionRuns.LoginReadmitsRevoked` | core-service/domains/auth/service.py:130-144 | a concrete run in which a token revoked by logout is accepted again after the next login |
| `SessionRuns.RefreshedAccepted` | core-service/domains/auth/service.py:120-126 | a refreshed access token is accepted exactly if its user is active and at version 1 |
| `SessionRuns.RefreshLocksOutLaterVersions` | core-service/domains/auth/service.py:120-126 | a refresh by a user at another version than 1 leaves the user without any accepted token that was not bulk-revoked |
| `SessionRuns.RefreshAfterPasswordChange` | core-service/domains/auth/service.py:120-126 | a concrete run: a login after a password change, then a refresh after which both access tokens are rejected |
| `SessionRuns.SessionContinuity` | core-service/domains/auth/service.py:67-126 | after a login at version 1 and any number of refreshes with no other request about the user, the newest access token is accepted until it expires and every earlier one is rejected |
| `RefreshRaces.NeverValidAgain` | core-service/domains/auth/service.py:102-112 | however refreshes overlap, a token that stopped being valid never is again |
| `RefreshRaces.OnlyTheWaiting` | core-service/domains/auth/service.py:87-112 | once exchanged, a token is exchanged again only by requests that had read it before, each at most once |
| `RefreshRaces.SecondExchangeExactly` | core-service/domains/auth/service.py:87-112 | a second exchange is possible if and only if another request had read the record before the first one wrote |
| `RefreshRaces.OverlapGivesTwoSessions` | core-service/domains/auth/service.py:87-112 | a concrete overlap that leaves two valid records |
| `RequestSigning.RequestVerifier.VerifyAppSecret` | core-service/domains/identity/dependencies.py:44-96 | accepts exactly an integer timestamp within 300 s, with an unused nonce, of an app with a secret, signed with that secret; each refusal has its exact cause, and only an acceptance records the nonce, for 300 s |
| `RequestSigning.SecondAcceptanceExactly` | core-service/domains/identity/dependencies.py:64-94 | after an acceptance some continuation accepts the identical request again if and only if its timestamp is at least lifetime minus window after that acceptance |
| `RequestSigning.PastRequestAcceptedOnce` | core-service/domains/identity/dependencies.py:64-94 | a request stamped strictly before the time of its first acceptance is accepted once in any run |
| `RequestSigning.LongLifetimeAcceptsOnce` | core-service/domains/identity/dependencies.py:64-94 | with a nonce lifetime above twice the window every request is accepted at most once in any run |
| `RequestSigning.FutureRequestAcceptedTwice` | core-service/domains/identity/dependencies.py:93-94 | as deployed, every acceptable request stamped at the server's time or later can be accepted twice |
| `RequestSigning.NonceOncePerLifetime` | core-service/domains/identity/dependencies.py:72-94 | two acceptances that share app and nonce lie at least a nonce lifetime apart |

## Left out

- Each request is one step, except in `RefreshRaces`: concurrent syncs, menu edits and menu reads, and a refresh that overlaps a login, are not modelled.
- Cryptography is taken as perfect: a signature is the secret with what it signs, a stored password is compared by equality, and whatever carries one of our signatures is a token we issued.
- Token ids, row ids and role ids are fresh values; the generators are not modelled.
- Profile data of users such as phone numbers, whose duplicates the database refuses, and later changes of name or e-mail address.
- The user-app grants are an input of the login: granting and withdrawing them are single writes.
- JSON and Redis string encodings: a cached tree and a refresh record are values; the old record form `valid` without a token id does not occur.
- The manifest hashes: nothing reads them back.
- Timestamps of a sync are inputs; they are compared with nothing.
- The permission-code set that is cached for the gateway and evicted together with the menu trees.
- The gateway itself: a request that it passes on is one whose token it has verified.
- Routers, schemas, response wrappers, business-code tables, departments, app and user administration beyond the requests named above: single-branch reads and writes that would only add easy members.
- Foreign keys from role links and holders to permissions and users when a permission or a user is deleted.
- Codes are assumed non-empty in the sync only where the code assumes it; an empty parent code counts as no parent when a row is drafted, as in the program.
- The database's ordered query is stood in for by `SelectVisible`, and time together with Redis dropping expired keys by the `Wait` methods; neither is code of the repository.
