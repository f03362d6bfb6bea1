# A verified model of the application service

The application service is a catalogue of applications. Each application has a tree of
draft menus, numbered releases of that tree, and grants that let tenants use it. Changes
are announced through a transactional outbox, which also feeds a search index. A
reconciler brings the service to the state that a bootstrap manifest declares. Beside
this, a route-policy store keeps the access rules of HTTP and gRPC routes, and every
process caches them.

This project models that behaviour in Dafny and proves what it keeps. `dafny verify
dfyconfig.toml` checks all of it.

## How it is organised

| file | what it models |
|---|---|
| `Wrappers`, `Text`, `Menus`, `Transactions`, `Replay` | result types, string functions, the menu record, all-or-nothing commits, consumers of numbered events |
| `Routes`, `MenuTree`, `MenuRoutes` | route segments and scopes, the cycle check, the route and default-route checks |
| `Manifest`, `BootstrapServer` | manifests and their order, the API that the reconciler drives |
| `Tallies`, `Declared`, `MenuReconciliation`, `Reconciler`, `Reruns`, `Republication` | the reconciler: its counters, declared menus against drafts, its loop over menus, the whole of it, manifests whose reruns are not quiet, and publications that failed |
| `DraftMenus`, `DraftRuns`, `DraftOverlaps`, `DraftWitnesses` | upserting and deleting draft menus, serial runs of them, writes whose checks are out of date, and runs that lead to calls which should have been refused |
| `Publication` | publishing in steps that interleave with everything else |
| `Grants`, `Search` | granting and revoking in steps that interleave, the outbox, the packed search version |
| `Navigation`, `Paging` | published navigations one by one and in batches; listings in pages |
| `PolicyTables`, `PolicyInput`, `PolicyStore`, `RouteSync`, `PolicyCache` | the route-policy tables, their input, writes and loads, route discovery, the polled cache |

SQL tables are maps, identifiers are fresh strings, and a transaction is a function that
runs on a copy which replaces the database only on success. Serial code that updates
state is written as classes and loops. Where the promise is about concurrency, the
operation is a state machine over its separate reads and its commit, and nothing is
assumed about the publish lease.

## What the model found

The model follows the code. In these places the code falls short of what is documented or
evidently meant. Each is proved, with the exact condition and with a concrete state or run.

* Re-running the bootstrap reports zero changes (README.md:24) exactly if two things hold.
  No status is lost: the service keeps statuses, or every declared menu that has a draft
  when the first run starts is up to date, below a parent that has one. Behind the HTTP
  adapter an update has no status, so it clears it and the next run updates again. And no
  declared text is trimmed: validation looks at trimmed names, the service stores trimmed
  text, and the reconciler compares what was declared (`ApplyTwice`,
  `RenamedMenuIsUpdatedAgain`, `UntrimmedTextIsUpdatedAgain`).
* A publication that failed is retried by the next bootstrap run only if the application
  was never published, or the next run has something to update anyway. If menus were only
  created, or statuses are kept, the old release stays (`FailedPublicationIsRetriedIff`,
  `FailedPublicationIsNotRetried`).
* A manifest is valid with a page component that the service refuses: only the prefix is
  looked at (`ManifestChecksFields`, `PageComponentMeans`, `BarePrefixIsRefused`).
* A default route cannot name the scope of its application, which a menu may claim
  (`DefaultIsReadLikeAMenu`).
* Any menu below another one needs a page as its parent, although the message speaks of
  actions only: the flag is overwritten for every type. A page below a directory, as the
  reconciler's own test declares it, is refused (`ParentMustBePageIff`,
  `PageBelowDirectoryIsRefused`).
* An update that names another application is validated against the wrong tree
  (`UpsertKeepsForests`, `CrossApplicationUpdate`).
* A create is checked with the status that was sent but stored as active, and a create
  that names a live menu leaves that menu out of the route check. Both can duplicate an
  active route (`UpsertKeepsRoutes`, `CreateWithAStatus`, `CreateNamingALiveMenu`).
* Reading, validating and writing a menu are separate. A write is safe exactly when its
  check would still pass at the time of the write (`WriteKeepsForestsIff`,
  `WriteKeepsRoutesIff`, `RemovalKeepsForestsIff`); two moves can leave a cycle and a create
  can lose its parent (`OverlappingMovesMakeACycle`, `CreateBelowDeleted`). Publication
  refuses such a tree later.
* A publish can leave a default route that leads nowhere exactly when the caller names a
  version that the application had not reached when the call read it (`PublishIsSafeIff`,
  `RacingReadLeavesDanglingDefault`).
* With such a version a revocation can write back the terms from before a renewal; with
  any other it never does (`RevokeKeepsTermsIff`).
* A revocation that read the application before a newer document event of an active grant
  was sent leaves that document in the search index, however the events are delivered; while
  the versions are in order this is the only way (`RevocationReachesIndexIff`, `RacingRevocationLeavesDocument`).
* The service validates trimmed copies of permissions and stores what was sent
  (`StoredIsValidatedIff`, `ScopesPassIff`, `UntrimmedKeyIsStored`). MySQL has no constraint
  on scopes: there an untrimmed one is stored and stops every later load
  (`SetKeepsLoadableIff`, `UntrimmedScopeIsRefusedOrStored`).
* A commit between reloading the definitions and reading the revision leaves the cache
  stale until the next commit or message, exactly if it concerns a policy that is active
  or becomes so (`SplitRefreshAgreesIff`, `SplitRefreshStaysStale`, `FirstPolicyIsMissed`),
  and several commits do so exactly if one of their policies is active before or after
  them (`LongSplitAgreesIff`). A commit whose clock reading is not past every stored stamp
  may be missed outside a refresh as well (`CommitIsMissedIff`).
* Pages are counted by position, so a row that is deleted on a page that the client has
  makes it miss the next row (`DeletionSkipsIff`).

## Model

| member | source | states |
|---|---|---|
| Routes.SegmentJoinsRuns | internal/application/service.go:823-830 | A route segment is the maximal alphanumeric runs of the lowered input joined by hyphens, and "menu" when there is none. |
| Routes.SegmentShape | internal/application/service.go:823-830 | Every segment is non-empty, begins and ends with an alphanumeric, and holds only those and hyphens. |
| Routes.SegmentIdempotent | internal/application/service.go:823-830 | Normalising a segment again changes nothing. |
| Routes.MenuRouteLandsInScope | internal/application/service.go:812-822 | A normalised menu route always lies in its application's scope, and normalising it again changes nothing. |
| Routes.RouteSpellingsAgree | internal/application/service.go:812-822 | A route written relative to its application, with a leading slash or in full names the same path, and a menu without a route is reached under the segment of its code. |
| Routes.ScopedRouteIsKept | internal/application/service.go:812-822 | A path that is configured inside the scope is kept as it is. |
| Routes.ScopeOfSegment | internal/application/service.go:757-762 | An application whose code is a route segment has its routes below /apps/ and that code. |
| Text.TrimExact | internal/application/service.go:646 | Trimming takes the cut characters off both ends and nothing else. |
| Text.SpacesAre | internal/application/service.go:646 | The code points that trimming removes. |
| Text.LettersLowered | internal/application/service.go:824 | Lower-casing turns the 26 capitals into the 26 small letters and changes no other ASCII character. |
| Text.CodeLengths | internal/bootstrap/model.go:13 | A code of small letters has between 2 and 128 of them. |
| Routes.ScopesDisjoint | internal/application/service.go:757-762 | A path in the scopes of two applications forces their segments to be equal. |
| Routes.CreatedApplicationsHaveDisjointRoutes | internal/application/service.go:856-861 | Two applications whose different codes pass the check on creation share no route. |
| MenuTree.ValidateMenuTree | internal/application/service.go:732-755 | The two loops accept exactly when each item's parent chain reaches the root without passing the item's own identifier. |
| MenuTree.WalkParents | internal/application/service.go:740-753 | The inner walk ends, because `seen` grows inside the known identifiers, and says exactly whether the chain reaches the root without meeting its own item. |
| MenuTree.TreeAcceptedIffForest | internal/application/service.go:732-755 | With unique identifiers the check accepts exactly the lists in which every parent chain reaches the root through known items: the identified items are a forest and new items hang below it. |
| MenuTree.AcceptedWithLast | internal/application/service.go:691-714 | The check as `validateMenu` calls it, the other drafts followed by the sent menu, decides whether the tree with that menu put in place is a forest. |
| MenuTree.RepeatedIdIsRefused | internal/application/service.go:732-755 | With a repeated identifier the check also refuses a list without a cycle, so uniqueness is needed above. |
| MenuTree.Reparent | internal/application/service.go:732-755 | Adding or moving an item under a parent from a parent-closed set that does not hold the item keeps a forest a forest, whatever hangs below the item. |
| MenuTree.MoveKeepsForestIff | internal/application/service.go:740-753 | Putting an item below a parent keeps a forest a forest if and only if the walk from that parent reaches the root without meeting the item. |
| MenuTree.RemoveKeepsForestIff | internal/application/service.go:209-213 | Removing an item keeps a forest a forest if and only if it is nobody's parent. |
| MenuRoutes.ValidateMenuRoutes | internal/application/service.go:757-774 | The check accepts exactly when the active non-action menus have pairwise distinct paths that avoid the shell and the overview. |
| MenuRoutes.ValidateDefaultRoute | internal/application/service.go:776-806 | The check accepts exactly when the default route is empty, the overview, or the path of an active menu that is no active menu's parent. |
| MenuRoutes.DefaultIsReadLikeAMenu | internal/application/service.go:776-822 | A default route is read like the route of a menu if and only if it is not the scope itself. |
| MenuRoutes.DefaultRouteIsUnambiguous | internal/application/service.go:757-806 | Under both checks a non-empty default route leads to the overview and no menu, or to one active leaf whose path no other active menu has. |
| Manifests.OrderedMenus | internal/bootstrap/model.go:149-173 | The passes end; the result is a permutation of the input with each parent before its children; it fails exactly when no such order exists. |
| Manifests.OrderPass | internal/bootstrap/model.go:153-170 | One pass loses no menu, keeps parents first, and shrinks the remainder unless every remaining menu is blocked. |
| Manifests.StuckIsNotOrderable | internal/bootstrap/model.go:166-168 | When a pass moves nothing, no order of the whole input exists. |
| Manifests.OrderableIffTreeAccepted | internal/bootstrap/model.go:149-173 | For distinct codes and a one-to-one naming of codes by identifiers, an order exists exactly when the service's cycle check accepts the tree of identifiers. |
| Manifests.Validate | internal/bootstrap/model.go:63-147 | The loops accept exactly the manifests that satisfy the rules on codes, types, routes, components, scopes, parents and order. |
| Manifests.ValidSpecDistinct | internal/bootstrap/model.go:77-126 | The menu codes of a valid application, as written and not only as trimmed, are distinct and not empty. |
| Declared.ManifestChecksFields | internal/bootstrap/model.go:77-126 | A manifest's menu is valid exactly when the service's field checks pass for the menu that is sent, a directory and an action define nothing of their own, and the component is written in the namespace; the address of an external menu and the identifiers are checked by the service alone. |
| Declared.BarePrefixIsRefused | internal/bootstrap/model.go:115-117 | The bare namespace is a valid component for the manifest and not for the service. |
| BootstrapServer.TreeAdmitsIffAccepted | internal/application/service.go:691-714 | What the modelled API refuses as a cycle is exactly what the service's cycle check refuses on the other drafts and the sent menu. |
| BootstrapServer.Server.CreateApplication | internal/bootstrap/reconciler_test.go:29-34 | Stores what is sent, trimmed if the service trims, as a draft with a fresh identifier and version 1, or changes nothing; in conflict only over a stored code. |
| BootstrapServer.Server.UpdateApplication | internal/bootstrap/reconciler_test.go:35-41 | Stores what is sent, trimmed if the service trims, with status active and the next version; the current copy is never stale, and a strict service accepts no other. |
| BootstrapServer.Server.UpsertMenu | internal/bootstrap/reconciler_test.go:49-60 | Stores the menu with an unused identifier and version 1, or with the next version, under its trimmed text if the service trims, without its status if it is an update behind the HTTP adapter; a strict service accepts only current versions, known parents and trees without a cycle; a refusal on such a ground means that the ground exists. |
| BootstrapServer.Server.PublishMenus | internal/bootstrap/reconciler_test.go:61-70 | Takes the drafts over as the latest release and raises the release number and the version; a strict service does so only at the current version. |
| BootstrapServer.Server.Grant | internal/bootstrap/reconciler_test.go:79-86 | Stores an active grant with version one above what was expected, at least 1; a strict service does so only at the current version. |
| Declared.UpToDateMeans | internal/bootstrap/reconciler.go:142-158 | A draft counts as up to date exactly when each field is as declared: its defaults filled in, its status active, its parent the declared one. |
| Declared.KeptMenuFromSpec | internal/application/service.go:645-649 | What the service stores of a declared menu is what its trimmed form declares, whatever its type, scope and permission code. |
| Declared.UpToDateIffKept | internal/bootstrap/reconciler.go:142-158 | A stored draft is up to date exactly when it is so for the trimmed menu and the menu was declared trimmed. |
| Declared.DueFromTheStart | internal/bootstrap/reconciler.go:99-128 | Whether a menu will be updated can be read off the drafts before its parents are placed: its draft is up to date and its declared parent has a draft already. |
| Declared.PlaceKeepsForest | internal/bootstrap/reconciler.go:106-128 | Putting a declared menu in place after its parent keeps the whole draft set a forest, even if the menu was above its new parent before; the parent exists and the cycle check agrees. |
| Reconciliation.Reconciler.ReconcileMenus | internal/bootstrap/reconciler.go:87-130 | It changes something exactly when a declared menu was not up to date; afterwards the drafts are as declared, trimmed, but for lost statuses, and all are up to date exactly when no status is lost and nothing was trimmed; forests stay forests at every call, over forests the tree check refuses none, and trimmed menus meet no conflict. |
| Reconciliation.Reconciler.EnsureApplication | internal/bootstrap/reconciler.go:46-60 | Afterwards the application is active and holds the declared name (trimmed if the service trims), description, icon, default route, sort order and metadata. A known one is updated exactly if one of these fields or the status differed; an unknown one is created and updated; no other one is touched; a refusal is one of the service. |
| Reconciliation.SettledMeans | internal/bootstrap/reconciler.go:132-140 | Settled means, field by field, that all this is stored, that there is a release, and that every tenant holds an active grant. |
| Reconciliation.RunStoresDeclared | internal/bootstrap/reconciler.go:19-85 | So it is for each application of the manifest after a run that succeeds. |
| Reconciliation.Reconciler.GrantTenants | internal/bootstrap/reconciler.go:72-82 | Afterwards every tenant holds an active grant; the client's copy of the grants stays right; tenants with an active grant cause no call. |
| Reconciliation.Reconciler.NormalizedTenantIDs | internal/bootstrap/reconciler.go:160-176 | The trimmed non-empty tenants, without repeats, in the order of their first occurrence. |
| Reconciliation.Reconciler.ApplyApplication | internal/bootstrap/reconciler.go:43-83 | One application of the manifest: the counters count the calls, other applications are untouched, a converged one causes no call, and the release holds the drafts exactly when a menu changed, none existed, or it did before. |
| Reconciliation.Reconciler.Apply | internal/bootstrap/reconciler.go:19-85 | From any valid database of a service of any kind, with any refusals: the counters are the numbers of calls; a converged state is left alone; every intermediate draft tree is a forest and no call is stale or refused for the tree; on success the result is zero exactly when all was as declared, all is stored as declared, trimmed, but for lost statuses, it is all up to date exactly when nothing was lost or trimmed, and the release holds the drafts exactly when publishing was due or it did before. A valid manifest with nothing to trim, over forests, fails only if the service refuses a call. |
| Reconciliation.Reconciler.ApplyTwice | internal/bootstrap/reconciler.go:19-85 | After a success, a second run makes no call and returns zeros exactly when the manifest is declared trimmed, and the service keeps statuses or, in the state before the first run, every declared menu with a draft is up to date below a parent that has one. |
| Reconciliation.UpdateOverHttpIsNotUpToDate | internal/transport/http/application_body.go:126-133 | An update through the HTTP adapter never brings a draft up to date. |
| Reruns.RenamedMenuIsUpdatedAgain | internal/application/service.go:183-191 | With a valid trimmed manifest that renames one menu, over a valid state behind the HTTP adapter, no run that succeeds leaves the next one nothing to do. |
| Reruns.RenamingRunSucceeds | internal/bootstrap/reconciler.go:19-85 | Such a run exists: it updates the menu, publishes and succeeds. |
| Reruns.UntrimmedTextIsUpdatedAgain | internal/bootstrap/model.go:70 | The same for valid manifests with a space around a name or a route, from every state of every service that trims. |
| Republication.FailedPublicationIsRetriedIff | internal/bootstrap/reconciler.go:66-71 | After the application and its menus were reconciled and the publication was refused, the next run publishes if and only if the application was never published, some text is trimmed, or a menu was updated over an adapter that loses statuses. |
| Republication.FailedPublicationIsNotRetried | internal/bootstrap/reconciler.go:66-71 | From every converged and mirrored state, with one more menu declared, a run may create it and be refused the publication; then no run that succeeds makes a call, so the old release stays. |
| Republication.MoreIsDue | internal/bootstrap/model.go:63-147 | Such a state and a valid manifest for it, for every kind of service. |
| DraftMenus.NormalizedTwice | internal/application/service.go:646-649 | Normalising a sent menu is stable, so a stored menu that is sent back is stored as it is. |
| Declared.DefaultsAgree | internal/bootstrap/reconciler.go:142-158 | The reconciler's defaults for scope and permission are the service's: normalising the menu with the text as declared gives the same. |
| DraftMenus.PageComponentMeans | internal/application/service.go:719-723 | A page's component is valid exactly when it is the application's code followed by component names, all joined by dots. |
| DraftMenus.NamesAreCodes | internal/application/service.go:719-723 | From two characters on, component names are the codes without a dot. |
| DraftMenus.MenuService.ScanDrafts | internal/application/service.go:691-703 | The loop finds whether the parent fits, which for any child means a live page, and drops the draft that is replaced. |
| DraftMenus.MenuService.ValidateMenu | internal/application/service.go:645-717 | Validation succeeds exactly when the fields are valid, the component lies in the application's namespace, the parent is a live page, and the tree and the routes with the menu in place are valid. |
| DraftMenus.MenuService.UpsertMenu | internal/application/service.go:167-196 | Succeeds exactly when the menu is valid, the version is current and the code is free; then one row is written and nothing else changes; a failure changes nothing. The row, field by field: texts trimmed, permission in lower case, scope "tenant" when none was sent, icon, sort order and visibility as sent; a create is active at version 1, an update keeps its application and has the status as sent and the next version. |
| DraftMenus.UpsertWrites | internal/application/service.go:167-196 | The catalog after any accepted upsert, spelled out like that. |
| DraftMenus.MenuService.DeleteMenu | internal/application/service.go:197-221 | Succeeds exactly for a live menu without children at the expected version; then that row is soft-deleted and nothing else changes. |
| DraftMenus.DeleteWrites | internal/application/repository.go:226-229 | The row is marked, has status "deleted" and the next version, and is otherwise as it was. |
| DraftRuns.UpsertKeepsForests | internal/application/service.go:167-196 | An accepted upsert keeps every application's drafts a forest if and only if it names the menu's own application or moves the menu to the top. |
| DraftRuns.DeleteKeepsForests | internal/application/service.go:197-221 | Every accepted delete keeps the drafts forests. |
| DraftRuns.UpsertKeepsRoutes | internal/application/service.go:167-196 | An accepted upsert in its own application keeps active routes distinct if and only if it is not a create that was checked with another status or that names a live menu with its path. |
| DraftRuns.DeleteKeepsRoutes | internal/application/service.go:197-221 | Every accepted delete keeps active routes distinct. |
| DraftRuns.RunKeepsForests | internal/application/service.go:167-221 | Every serial run of upserts and deletes whose upserts are well addressed keeps all drafts forests. |
| DraftRuns.RunKeepsRoutes | internal/application/service.go:167-221 | Every such run without the two kinds of create also keeps the active routes of each application distinct. |
| DraftWitnesses.CrossApplicationUpdate | internal/application/service.go:173-191 | After a serial run from the empty catalog, an update that names another application is accepted and leaves a menu whose parent is not in its tree. |
| DraftWitnesses.CreateNamingALiveMenu | internal/application/service.go:699-703 | After such a run, a create that names a live menu is accepted with that menu's active path. |
| DraftWitnesses.CreateWithAStatus | internal/application/service.go:178-182 | After such a run, a create sent with another status is accepted with the path of an active menu and stored as active. |
| DraftRuns.ParentMustBePageIff | internal/application/service.go:691-710 | With every other check met, a menu of any type below a live menu is accepted if and only if that one is a page. |
| DraftWitnesses.PageBelowDirectoryIsRefused | internal/application/service.go:691-710 | After such runs, a page that is accepted below a page is refused below a directory. |
| DraftOverlaps.WriteKeepsForestsIff | internal/application/repository.go:218-225 | Whatever was checked before, a write that goes through keeps all drafts forests if and only if the walk from its parent, at the time of the write, reaches the root without meeting the menu; a create needs its parent to be there still. |
| DraftOverlaps.CreateBelowDeleted | internal/application/service.go:167-221 | A create that is written after its parent was deleted never keeps the forest. |
| DraftOverlaps.WriteKeepsRoutesIff | internal/application/repository.go:218-225 | Such a write keeps active routes distinct if and only if its own path, if it is active, is free at the time of the write. |
| DraftOverlaps.RemovalKeepsForestsIff | internal/application/repository.go:226-229 | A delete that goes through keeps all drafts forests if and only if the menu has no child at the time of the delete. |
| DraftWitnesses.OverlappingMovesMakeACycle | internal/application/service.go:167-196 | After such a run, two moves that are both accepted before either is written are both written and leave a cycle. |
| Publication.CommitOutcome | internal/application/service.go:278-295 | A commit changes nothing, or adds exactly the release that it read and sets the release number and the version. |
| Publication.CommitsIff | internal/application/service.go:254-295 | A commit takes effect if and only if the stored version is the one that was named, the stored release number is the one that was read, and the drafts that were read are not empty, are a forest and pass both route checks. |
| Publication.SerialPublishIff | internal/application/service.go:254-299 | From every reachable state, publishing without interference stores the drafts as the next release if and only if they pass, and otherwise changes nothing. |
| Publication.PublishedIsNext | internal/application/repository.go:235-264 | A commit that takes effect extends the latest release number by exactly one, however old its read of the application is. |
| Publication.StepKeepsInv | internal/application/service.go:254-299 | Every step of every actor keeps the release numbers, the releases' validity, and the fact that a pending read is never ahead of the database. |
| Publication.EveryRunPublishesInOrder | internal/application/service.go:254-299 | In every interleaving, without the lease, each application's stored release numbers are exactly 1 to its published release, and every stored release is a non-empty forest with distinct active routes that avoid the shell and the overview. |
| Publication.EveryRunFromTheStart | internal/application/service.go:254-299 | So it is in every run from the empty database. |
| Publication.ReleasesAreImmutable | migrations/postgres/000002_application.up.sql:10 | From any point of any run on, published releases never decrease, codes never change, and no stored release changes or goes away. |
| Publication.LateCommitIsRefused | internal/application/repository.go:235-264 | A publisher that read before another one committed changes nothing, at once or after any further run. |
| Publication.KnownVersionIsSafe | internal/application/service.go:266-283 | If the version that the caller named is not newer than the copy of the application that was read, a commit that takes effect leaves a default route in force that the new release accepts. |
| Publication.PublishIsSafeIff | internal/application/service.go:254-299 | Over publishable drafts, every continuation of a publish commits safely if and only if the caller named a version that the application had reached when the call read it. |
| Publication.NewerVersionDangles | internal/application/service.go:255-283 | For every newer version some continuation commits a release in which the default route in force leads nowhere. |
| Publication.RacingReadLeavesDanglingDefault | internal/application/service.go:255-283 | A concrete run from the empty state that does so. |
| Replay.AnyDeliveryAgrees | internal/application/service.go:571-573 | Of events with ascending versions, delivered in any order and any number of times, a consumer that keeps the highest version ends with the one sent last. |
| Grants.AddEventsOutcome | internal/application/repository.go:317-320 | The outbox inserts of a transaction are all written, in order, or the transaction fails. |
| Grants.GrantOutcome | internal/application/service.go:402-446 | A grant commits its row and both events together exactly when its checks pass, nobody was faster and both inserts succeed; otherwise nothing changes. |
| Grants.FirstGrantIff | internal/application/service.go:402-446 | A first grant is stored if and only if the entitlements are well formed, no version was expected, both inserts succeed, and the end, if any, is after the start (as sent, or now); the row and both events are spelled out. |
| Grants.RenewalIff | internal/application/service.go:402-446 | The same for a renewal, which names the stored version, keeps the identifier and has the next version. |
| Grants.SerialFirstGrantIff | internal/application/service.go:389-446 | So is a grant without interference, from begin to commit. |
| Grants.LifeOfAGrant | internal/application/service.go:83-122 | From the empty database: creating, granting, publishing, renaming and revoking leaves exactly the expected rows and five events. |
| Grants.RevokeOutcome | internal/application/service.go:515-545 | The same for a revocation, with the grant at the expected version. |
| Grants.RevocationIff | internal/application/service.go:515-545 | Its condition, its row and its events spelled out. |
| Grants.UpdateOutcome | internal/application/service.go:83-122 | An update of an application commits together with one document event for each tenant that holds an open grant, or changes nothing. |
| Grants.GrantOpensItsWindow | internal/application/service.go:405-428 | An accepted grant is open exactly from its start, by default now, to its end, and that is some time; a revoked grant is never open. |
| Grants.RenewalRoundTrip | internal/application/service.go:428-438 | Granting again with what is stored changes only the version. |
| Grants.RevokeKeepsTermsIff | internal/application/service.go:515-534 | In every state that a run from the empty database reaches: whatever happens between beginning to revoke and committing, the commit changes only the status and the version of the stored grant, if and only if the caller named a version that the grant had reached when the call read it. |
| Grants.KnownVersionRevokesAsStored | internal/application/service.go:515-534 | With such a version every continuation is like that. |
| Grants.NewerVersionUndoesRenewal | internal/application/service.go:515-534 | With any newer version, renewals from another source up to it commit in between, and the revocation undoes their terms. |
| Grants.ReachableIsKept | internal/application/service.go:389-446 | In every state that a run from the empty database reaches, grants are recorded by their events and have trimmed keys of existing applications. |
| Grants.StepKeepsInv | internal/application/service.go:389-446 | Every step keeps, for each grant, that its events carry versions 1, 2 and so on and the last one carries the stored row. |
| Grants.EveryRunRecords | internal/application/service.go:389-446 | So does every interleaving of grants, revocations, renames and publications. |
| Grants.EventsRebuildRow | internal/application/repository.go:273-280 | In every interleaving the grant-changed events of a grant have versions 1 to k without gap or repeat, and rebuild its stored row however they are delivered. |
| Grants.RunAdvances | internal/application/repository.go:273-280 | Grants never go away, keep their identifier, and only change with a higher version. |
| Grants.LateCommitLeavesNothing | internal/application/repository.go:273-280 | A create, renewal or revocation that needs an older version than the stored one leaves neither row nor event, at once or after any further run. |
| Search.PackedOrders | internal/application/service.go:571-576 | For application versions below 2^31 and grant versions below 2^32 the packed number orders exactly like the pair and is one-to-one. |
| Search.PackedOverflows | internal/application/service.go:571-576 | One step past either range the order is lost. |
| Search.SourceVersionIsSum | internal/application/service.go:574-576 | The shift and the bitwise or amount to adding the low 32 bits of the grant version to the application version times 2^32, wrapped to 64 bits. |
| Search.StepKeepsSearch | internal/application/service.go:547-550 | A step that is not a commit overtaken by a newer document event keeps the version pairs of each document ascending, with the newest event an upsert exactly when the grant is active. |
| Search.RunOrderIff | internal/application/service.go:389-446 | From a state in order, at the end of any interleaving all document versions ascend if and only if no grant or revocation that took effect had been overtaken. |
| Search.IndexFollowsGrants | internal/application/service.go:552-576 | In such runs, inside the two ranges, source versions ascend strictly, and under any delivery the index shows the document exactly when the grant is active, titled with the application's name if its newest event is not older than that name. |
| Search.CommitOrderIff | internal/application/service.go:515-545 | In any interleaving, a grant or revocation that takes effect keeps the order if and only if no newer document event has overtaken its read of the application. |
| Search.RevocationReachesIndexIff | internal/application/service.go:515-545 | From a state in which the document's versions are in order, inside the two ranges and however the events are delivered: after a revocation that takes effect the index has lost the document if and only if the grant was not active or no newer document event had overtaken its read of the application. |
| Search.RenameReachesOpenGrants | internal/application/service.go:102-117 | An update sends one document event, with the new name, for each open grant of the application and for no other. |
| Search.SerialRunsAreQuiet | internal/application/service.go:389-446 | In serial runs no application moves between a read and the commit. |
| Search.QuietIsUnovertaken | internal/application/service.go:389-446 | In such runs nothing is overtaken. |
| Search.SerialIndexFollowsGrants | internal/application/service.go:389-446 | So from the empty database the index follows the grants in every serial run, however the events are delivered. |
| Search.RacingRevocationLeavesDocument | internal/application/service.go:524-545 | From every state with an open grant, a revocation that reads the application before a rename and commits after it leaves the document in the index under every delivery. |
| Navigation.BatchActiveGrants | internal/application/repository.go:299-316 | The map holds true for exactly the requested applications that the tenant has an open grant for. |
| Navigation.UniqueApplicationIDs | internal/application/service.go:370-388 | Refuses empty, oversized and blank lists exactly; otherwise the trimmed identifiers without repeats by first occurrence. |
| Navigation.ListPublishedNavigations | internal/application/service.go:325-368 | The batch loop returns what asking one by one returns for the identifiers for which that succeeds. |
| Navigation.BatchIsExact | internal/application/service.go:300-368 | None missing, none twice, none else, in the order in which they were first requested. |
| Navigation.ReadAfterCommit | internal/application/service.go:300-324 | After a publication that took effect, a reader without a tenant gets exactly the menus that were published, with the application as committed. |
| Navigation.ReadsNewestRelease | internal/application/service.go:300-324 | In every reachable state such a read succeeds exactly when something was published, and returns the newest release. |
| Navigation.ReadUntilNextPublication | internal/application/service.go:300-324 | Until the next publication of the application takes effect, every run leaves what is read. |
| Navigation.ScopedReadIff | internal/application/service.go:304-313 | A tenant reads the same exactly if it holds a grant that is active and inside its window, and is refused otherwise. |
| Navigation.BatchServesNewest | internal/application/service.go:325-368 | In every reachable state the batch holds exactly the requested applications that were published and may be read, each with its newest release. |
| Paging.ListingExact | internal/application/repository.go:97-138 | The listing holds each live application exactly once, strictly ordered by sort order and identifier. |
| Paging.TextBeforeMeans | internal/application/repository.go:97-138 | Identifiers are compared at the first difference, and a proper prefix comes first. |
| Paging.JoinedElements | internal/application/repository.go:140-177 | The grant listing holds exactly the tenant's live grants with their live applications. |
| Paging.JoinedOrder | internal/application/repository.go:169-177 | It is ordered like the applications. |
| Paging.PagesJoin | internal/application/service.go:937-948 | Consecutive pages of any admitted size join to the beginning of the listing. |
| Paging.ServeDefaults | internal/application/service.go:937-948 | Without a page or a size the first page and twenty rows are meant, and more than a hundred rows are refused. |
| Paging.Collect | internal/bootstrap/http_client.go:46-109 | On a listing that changes at most once between two calls, the client's loop ends, makes exactly the calls that are needed, and returns the old listing up to the change and the new one from there on, or fails with the first failing call. |
| Paging.StableListingIsCollected | internal/bootstrap/http_client.go:46-109 | On a stable listing that is the whole of it, with max(1, ceil(total/100)) calls. |
| Paging.SkippedIff | internal/application/repository.go:97-138 | Of the rows listed before and after a change, the client misses exactly those that move from behind the pages that it has onto them. |
| Paging.DeletionSkipsIff | internal/application/repository.go:97-138 | A deletion between two pages makes the client miss a row if and only if the deleted row was on a page that it has; it is the row that slides onto that page. |
| PolicyTables.RefsSetKeepsRows | internal/routepolicy/repository.go:236-264 | `Set` keeps at most one row for a policy and a key, live or deleted. |
| PolicyTables.RefsSetExactly | internal/routepolicy/repository.go:236-264 | Afterwards the live references of the policy are exactly the requested keys with their values, and a key that had a row, live or deleted, has the same one. |
| PolicyTables.RefsSetLoads | internal/routepolicy/repository.go:65-96 | If the requested scopes are known, the policy then loads with exactly the requested permissions. |
| PolicyTables.RefsSetSparesOthers | internal/routepolicy/repository.go:236-264 | The permissions of every other policy are as before. |
| PolicyTables.RefsSetVersions | internal/routepolicy/repository.go:236-264 | Only rows of the policy that are requested or live are written; each moves to its next version, and a new one has version 1. |
| PolicyTables.ScopeRoundTrip | internal/routepolicy/repository.go:97-108 | Each scope has one text, and no other text is a scope. |
| PolicyTables.DefinitionsMean | internal/routepolicy/repository.go:65-96 | What a load returns, spelled out: the active live policies, each with its live references under their keys. |
| PolicyInput.Validate | internal/routepolicy/service.go:72-91 | Accepts exactly valid fields, valid trimmed permissions and distinct trimmed keys; the compiler is shown the trimmed permissions. |
| PolicyInput.AcceptedKeysDistinct | internal/routepolicy/service.go:77-87 | Accepted permissions have distinct keys as sent, which the repository relies on. |
| PolicyInput.StoredIsValidatedIff | internal/routepolicy/service.go:77-91 | The stored permissions are the validated ones if and only if every permission was sent trimmed. |
| PolicyInput.InputAcceptedMeans | internal/routepolicy/service.go:72-91 | What the service asks of an input, spelled out on the texts as sent. |
| PolicyInput.AcceptedIsStoredIff | internal/routepolicy/service.go:72-92 | An accepted input is stored if and only if its route is there, the version named is that of the route's live policy or 0 where there is none, and, where the tables have the constraint, every scope was sent trimmed. |
| PolicyInput.AcceptedPolicy | internal/routepolicy/service.go:66-92 | It leaves a policy with trimmed texts and the next version, and all other policies as they were. |
| PolicyInput.AcceptedPermissions | internal/routepolicy/service.go:66-92 | The live references of that policy are exactly the permissions as they were sent. |
| PolicyInput.ScopesPassIff | migrations/postgres/000007_route_policies.up.sql:8 | An accepted input passes the table's scope constraint if and only if every scope was sent trimmed. |
| PolicyInput.UntrimmedKeyIsStored | internal/routepolicy/service.go:77-91 | An accepted key with a space around it is stored with it. |
| PolicyInput.UntrimmedScopeIsRefusedOrStored | migrations/mysql/000007_route_policies.up.sql:3 | An accepted scope with a space around it is refused by the tables where they have the constraint; where they have none, it is stored and no load succeeds afterwards. |
| PolicyStore.Repository.WriteRequests | internal/routepolicy/repository.go:244-255 | The first loop writes a row for every request, in place where one exists, and fails exactly on an unknown scope under the constraint. |
| PolicyStore.Repository.PruneRefs | internal/routepolicy/repository.go:256-262 | The second loop deletes exactly the live rows whose key is not requested. |
| PolicyStore.Repository.Set | internal/routepolicy/repository.go:199-264 | Succeeds exactly for an existing route, the current version and values that the tables admit; then the policy has the next version and its references are as requested; a failure changes nothing and says which. |
| PolicyStore.Repository.Load | internal/routepolicy/repository.go:65-96 | The two queries and the join return exactly the active policies with their live references by key, or fail exactly when a live reference of an active policy has an unknown scope. |
| PolicyStore.SetThenLoad | internal/routepolicy/repository.go:65-264 | Round trip: after `Set`, loading gives for an active policy exactly the definition that was sent, for a disabled one none, and for all others what it gave before. |
| PolicyStore.SetKeepsLoadableIff | internal/routepolicy/repository.go:65-264 | Tables that load still do after a `Set` if and only if it disables the policy or requests known scopes only. |
| PolicyStore.SetSparesDefinitionsIff | internal/routepolicy/repository.go:65-264 | A `Set` leaves the active definitions as they were if and only if its policy was not active and does not become so. |
| PolicyStore.Repository.ReadRevision | internal/routepolicy/repository.go:110-116 | The latest update time over all policies and references, deleted ones included. |
| PolicyStore.SetRevision | internal/routepolicy/repository.go:110-116 | After a `Set` the revision is its clock reading or a later stamp; it is as before if and only if the clock reading equals it, or is earlier and the row with the latest stamp is not written. |
| PolicyStore.Repository.SyncRoutes | internal/routepolicy/repository.go:122-148 | Each announced route is stored as announced and active, the other active ones of the first route's service and protocol become inactive, and nothing else changes; it fails, changing nothing, exactly on an empty list or a deleted row. |
| RouteSync.ActiveAfterSync | internal/routepolicy/repository.go:122-148 | A route is active afterwards exactly when it was announced, or was active for another service or protocol. |
| RouteSync.StoredAfterSync | internal/routepolicy/repository.go:122-148 | Each announced route is stored field by field as it was announced last. |
| RouteSync.KeptAfterSync | internal/routepolicy/repository.go:122-148 | Any other route keeps everything, but perhaps turns from active to inactive. |
| RouteSync.SyncTwice | internal/routepolicy/repository.go:122-148 | Announcing the same routes again changes nothing. |
| RouteSync.SyncKeepsIdentities | migrations/postgres/000007_route_policies.up.sql:2 | If identifiers are made from identities, no two live routes share an identity afterwards. |
| PolicyCache.Manager.RefreshSource | internal/routepolicy/manager.go:38-59 | Replaces the snapshot and then the revision; a failed load changes nothing, a failed revision read keeps the old revision. |
| PolicyCache.Manager.OnTick | internal/routepolicy/manager.go:110-118 | Refreshes exactly when the revision could be read and differs from the stored one. |
| PolicyCache.Manager.Write | internal/routepolicy/service.go:92-106 | A successful write is followed by a refresh; a failed one leaves tables and cache alone. |
| PolicyCache.StepKeepsAgreement | internal/routepolicy/manager.go:94-125 | Writes here and elsewhere, messages, ticks, failed loads and failed revision reads all keep: a stored revision equal to the tables' stands for a current snapshot. |
| PolicyCache.RefreshingEvents | internal/routepolicy/manager.go:38-59 | A write here and a message leave the process fresh if nothing fails; a write elsewhere leaves it stale; a failed load keeps the old snapshot, and a failed revision read the old revision. |
| PolicyCache.RunsAgree | internal/routepolicy/manager.go:94-125 | So cache and tables agree at every point of every run. |
| PolicyCache.TickMakesCurrent | internal/routepolicy/manager.go:110-118 | Each successful tick of a run, on tables that load, leaves the snapshot equal to the active definitions. |
| PolicyCache.SplitRefreshAgreesIff | internal/routepolicy/manager.go:50-57 | A commit between reload and revision read keeps the agreement if and only if its policy was not active and does not become so. |
| PolicyCache.SplitRefreshStaysStale | internal/routepolicy/manager.go:110-118 | After any other such commit no number of ticks repairs the snapshot while nothing else is committed or announced. |
| PolicyCache.FirstPolicyIsMissed | internal/routepolicy/manager.go:50-57 | The first policy of a route, set while a refresh is under way, is such a commit. |
| PolicyCache.LongSplitAgreesIff | internal/routepolicy/manager.go:50-57 | However many commits fall between reload and revision read, the agreement survives if and only if no policy that they write is active at either end. |
| PolicyCache.CommitIsMissedIff | internal/routepolicy/manager.go:110-118 | For a commit with any clock reading: the next tick misses it if and only if it concerns an active policy and does not move the revision. |

## Left out

- HTTP and gRPC transport, configuration, logging, metrics, health checks and the migration runner: plumbing and field copies.
- Authentication and tenant authorization: an authorized actor is assumed, and the tenant scope of a reader is a parameter.
- Operation and security logs: they are written after the commit and do not change what is modelled.
- The Redis lock, the outbox dispatcher, the CEL compiler and the inside of the snapshot are not part of this model; a load that does not compile is a failing reload, and the lock is not relied on.
- A commit whose success is reported as a failure, and a response that is lost after the commit: a refused call has changed nothing.
- Statements of one transaction that see commits made in between: a transaction is one step.
- Integer widths, except in the packed search version: counters and versions are unbounded.
- Lower-casing beyond ASCII letters and the two other code points with an ASCII lower case; database collations: text is ordered by code point.
- JSON syntax and JSON equality: metadata is a map, and whether entitlements are well formed is a flag of the request. URL syntax is a predicate.
- The fields of a search document other than its title, and of an application other than its name: they travel the same way.
- Audit columns, comments of releases, and the events on applications and releases: copies of fields.
- Filters of listings, route-policy pages, single lookups and `BatchCheck`: one query each, so easy members.
- The in-memory join in `PageGrants`: its result is stated directly as `Paging.Joined`.
- `ValidateRoutes` and `EvaluateRoute`: calls into the snapshot.
- The type of a menu's parent as an invariant: a page may become a directory while it has children.
- BootstrapServer.Server.UpsertMenu: is not bound to refuse what only the service's field, parent-type and route checks refuse; any call may be refused for a reason that is not modelled. Identifiers carry no surrounding space.
- BootstrapServer.Server.CreateApplication: does not lower-case codes, since codes that pass the manifest's validation are in lower case.
- Manifests.Validate: says whether there is an error, not which.
- MenuTree.ValidateMenuTree: does not tell a cycle from an unknown parent.
- DraftMenus.MenuService.ValidateMenu: says whether there is an error, not which.
- DraftMenus.MenuService.UpsertMenu: states serial calls, since reading, validating and writing are one step; the lemmas of `DraftOverlaps` say what overlapping calls keep.
- PolicyStore.Repository.Load: returns the definitions by policy, without the order by route.
- PolicyStore.Repository.Set: takes distinct keys, which the service has checked, and unused identifiers from its caller.
- PolicyCache.RunsAgree: assumes commits with clock readings past every stored one; statement times of overlapping transactions need not ascend in commit order, and `PolicyCache.CommitIsMissedIff` says what becomes of others.
- Paging.Collect: states a listing that changes at most once between the calls.
