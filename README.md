# laravel-waitlist, modelled in Dafny

This project models the core of the `offload-project/laravel-waitlist`
package. The core has three parts:

- `WaitlistService`, which selects a waitlist context, creates waitlists,
  adds entries, invites or rejects them, and answers scoped queries and counts;
- the `WaitlistEntry` record and its three-state status
  (`pending`, `invited`, `rejected`);
- the `Waitlist` record and its `is_active` flag.

The two database tables, `waitlists` and `waitlist_entries`, are values:
sequences of rows plus the next auto-increment id (`Tables.WaitlistTable`,
`Tables.EntryTable`). Every service operation is a pure function over these
tables, and its properties are proved as lemmas. The service is the class
`Service.Store`. It holds the tables, the `currentWaitlist` context (as the
id of the selected waitlist), a logical clock that stamps `created_at` and
`invited_at`, the configuration (`default_slug`, `auto_send_invitation`) and
a ghost outbox of sent invitation notices. Each of its methods ties the new
state to the table functions. Each also keeps the invariant `Store.Valid()`,
which holds when:

- waitlist ids are increasing and below the next id;
- slugs are unique;
- entry ids are increasing and below the next id;
- entries are stored in strictly increasing `created_at` order, earlier than
  the clock;
- every invited entry has an `invited_at`;
- no waitlist holds the same e-mail twice.

Files:

- `wrappers.dfy`: `Option` and `Result`.
- `waitlist.dfy`: module `Waitlists`, the waitlist record (src/Models/Waitlist.php).
- `waitlist_entry.dfy`: module `Entries`, the entry record and its transitions (src/Models/WaitlistEntry.php).
- `queries.dfy`: module `Queries`, the scoped filters, orderings and counts behind `query()`, `getPending`, `getInvited`, `getAll`, `getByEmail`, `exists` and the counts.
- `tables.dfy`: module `Tables`, the two tables, their well-formedness and the insert, lookup, `firstOrCreate`, `findOrFail` and update operations the service performs on them.
- `waitlist_service.dfy`: module `Service`, the `Store` class (src/WaitlistService.php).
- `scenarios.dfy`: module `Scenarios`. Steps of tests/Feature/WaitlistTest.php, replayed on concrete states through the `Store` contracts.

Failures that PHP reports as exceptions are `Err` results:

- `NotFound` for `findOrFail` and `firstOrFail`;
- `DuplicateEntry` for the unique-index violation on a second `add` of an
  e-mail to a waitlist;
- `DuplicateSlug` for creating a second waitlist with an existing slug.

On `Err`, the entries, the clock and the outbox are left unchanged. `add`
resolves its scope first, so the default waitlist may still have been
created before a `DuplicateEntry` (src/WaitlistService.php:68-70).

### Where the model follows the tests rather than the schema

The entries migration (database/migrations/2024_01_01_000000_create_waitlist_entries_table.php:16)
makes `email` globally unique and has no `waitlist_id` column, and
`WaitlistEntry::$fillable` (src/Models/WaitlistEntry.php:25-31) lacks
`waitlist_id`. Taken literally, `add` could neither store a waitlist id
nor register one e-mail on two waitlists. The feature tests require both
(tests/Feature/WaitlistTest.php:36-64). The model follows the tests:
`waitlist_id` is stored, and uniqueness is on the pair (`waitlist_id`,
`email`) (`Tables.UniqueEmailPerWaitlist`). The `waitlists` table's migration
is not part of this model, and neither `create` (src/WaitlistService.php:28-36)
nor the entries migration makes slugs unique; the model assumes a unique
index on `slug`, so `Tables.CreateWaitlist` refuses a
duplicate slug (see "## Left out").

## Model

| member | source | states |
|---|---|---|
| Waitlists.Activate | src/Models/Waitlist.php:44-54 | after `activate()`, `isActive()` is true and id, name, slug, description and settings are unchanged |
| Waitlists.Deactivate | src/Models/Waitlist.php:44-61 | after `deactivate()`, `isActive()` is false and every other attribute is unchanged |
| Waitlists.SameDescriptorsAndFlag | src/Models/Waitlist.php:49-61 | two waitlists with equal descriptors and equal flags are equal, so the contracts of activate/deactivate determine the result completely |
| Waitlists.ActivateIdempotent | src/Models/Waitlist.php:49-54 | activating twice is the same as activating once |
| Waitlists.DeactivateIdempotent | src/Models/Waitlist.php:56-61 | deactivating twice is the same as deactivating once |
| Waitlists.DeactivateThenActivate | tests/Feature/WaitlistTest.php:305-315 | deactivate then activate gives an active waitlist with the same descriptors, the very same record when it started active |
| Entries.StatusChecksExclusive | src/Models/WaitlistEntry.php:38-51 | exactly one of `isPending`, `isInvited`, `isRejected` holds for every entry |
| Entries.MarkAsInvited | src/Models/WaitlistEntry.php:53-61 | `markAsInvited()` from any status makes the entry invited with `invited_at` set to the current time, and leaves id, waitlist, name, e-mail, metadata and `created_at` unchanged |
| Entries.MarkAsRejected | src/Models/WaitlistEntry.php:63-70 | `markAsRejected()` from any status makes the entry rejected, keeps `invited_at` and every identifying attribute, and keeps "invited implies stamped" |
| Entries.Apply | src/Models/WaitlistEntry.php:53-70 | each transition sets the status it names, keeps identity and keeps "invited implies stamped" |
| Entries.RejectKeepsInviteTime | src/Models/WaitlistEntry.php:63-70 | rejecting an invited entry keeps its invitation time |
| Entries.TransitionsCompose | src/Models/WaitlistEntry.php:53-70 | after any two transitions the status is the last one's and the identity is the original's |
| Queries.InScope | src/WaitlistService.php:170-175 | `query()` yields exactly the rows of the given waitlist, in stored order |
| Queries.WithStatus | src/WaitlistService.php:103-120 | `where('status', ...)` yields exactly the rows with that status, in the same order |
| Queries.Reverse | src/WaitlistService.php:125-130 | the reversal puts the last row first, position by position |
| Queries.InsertByInvite | src/WaitlistService.php:114-120 | inserting into a list sorted newest-invitation-first keeps it sorted and adds exactly that row |
| Queries.ConsDescending | src/WaitlistService.php:114-120 | a row whose invitation key is at least the head's may be put in front of a sorted list |
| Queries.SortByInviteDesc | src/WaitlistService.php:114-120 | `orderBy('invited_at', 'desc')` is a permutation (same multiset) that is sorted newest invitation first, with null times last |
| Queries.PendingOldestFirst | src/WaitlistService.php:103-109 | `getPending()` holds exactly the pending rows of the waitlist, in ascending `created_at` order |
| Queries.InvitedNewestFirst | src/WaitlistService.php:114-120 | `getInvited()` is a permutation (same multiset) of the invited rows of the waitlist, in descending `invited_at` order |
| Queries.AllNewestFirst | src/WaitlistService.php:125-130 | `getAll()` holds exactly the rows of the waitlist, all of them, in descending `created_at` order |
| Queries.FirstByEmail | src/WaitlistService.php:132-137 | `getByEmail()` is non-null exactly when the waitlist has a row with that e-mail, and then it is such a row |
| Queries.EntryCount | src/WaitlistService.php:146-149 | `count()` equals the size of `getAll()` |
| Queries.PendingCount | src/WaitlistService.php:151-156 | `countPending()` equals the size of `getPending()` |
| Queries.InvitedCount | src/WaitlistService.php:158-163 | `countInvited()` equals the size of `getInvited()` |
| Queries.StatusPartition | src/Models/WaitlistEntry.php:38-51 | the pending, invited and rejected rows together number exactly the rows |
| Queries.CountsBounded | src/WaitlistService.php:146-163 | `countPending() + countInvited() <= count()` |
| Queries.InScopeConcat | src/WaitlistService.php:170-175 | scoping distributes over concatenation of the table |
| Queries.WithStatusConcat | src/WaitlistService.php:103-120 | the status filter distributes over concatenation |
| Queries.AppendToScope | src/WaitlistService.php:66-77 | a row added to a waitlist raises its count by exactly one, comes last among its pending rows and first in `getAll()` |
| Queries.AppendToOtherScope | src/WaitlistService.php:170-175 | a row added to another waitlist changes none of this waitlist's lists, and neither `getByEmail` nor `exists` for any e-mail |
| Queries.FirstByEmailAppendOther | src/WaitlistService.php:132-137 | a row added to another waitlist does not change `getByEmail` here, for any e-mail |
| Queries.ScopesIsolated | tests/Feature/WaitlistTest.php:66-91 | an entry of waitlist A never appears in B's `getAll`, `getPending` or `getInvited` |
| Queries.CountUnchangedByTransitions | src/WaitlistService.php:146-149 | rewriting rows in place without moving them between waitlists keeps every waitlist's count |
| Tables.FindBySlug | src/WaitlistService.php:41-44 | `where('slug', ...)->first()` is non-null exactly when a row has the slug, and then it is such a row |
| Tables.FindWaitlistById | src/WaitlistService.php:183-184 | `findOrFail($id)` finds a row exactly when a row has the id |
| Tables.FindBySlugUnique | src/WaitlistService.php:41-44 | with unique slugs, looking up a stored waitlist's slug returns that waitlist |
| Tables.FindBySlugAppend | src/WaitlistService.php:28-44 | after a row is appended, a slug lookup finds the old row, or else the new row if the slug is its own, or else nothing |
| Tables.FindWaitlistByIdAppend | src/WaitlistService.php:183-184 | appending a row does not change the lookup of an id already present |
| Tables.CreateWaitlist | src/WaitlistService.php:28-36 | `create` fails with `DuplicateSlug` exactly when the slug is taken; otherwise it appends one row with the next id and the given attributes, and `find` returns it |
| Tables.CreatePreservesWellFormed | src/WaitlistService.php:28-36 | a successful `create` keeps ids increasing and slugs unique |
| Tables.FirstOrCreate | src/WaitlistService.php:49-61 | `getDefault()` returns the row with the default slug, leaving the table unchanged if one exists, otherwise appending exactly one "Default Waitlist" row |
| Tables.FirstOrCreateIdempotent | src/WaitlistService.php:49-61 | a second `getDefault()` returns the same waitlist and creates nothing |
| Tables.FirstOrCreateSingleRow | src/WaitlistService.php:49-61 | after `getDefault()` the table holds exactly one waitlist with the default slug |
| Tables.FirstOrCreatePreservesWellFormed | src/WaitlistService.php:49-61 | `getDefault()` keeps ids increasing and slugs unique |
| Tables.ResolveWaitlist | src/WaitlistService.php:177-188 | a handle resolves as-is; a slug or id resolves exactly when a row has it, to such a row; otherwise `NotFound` |
| Tables.ResolveScope | src/WaitlistService.php:68 | the scope is the current waitlist with the table unchanged, or with no context exactly the result of `getDefault()` (`Tables.FirstOrCreate`): the table unchanged when the default exists, otherwise the old rows plus the one "Default Waitlist" row |
| Tables.ResolveScopePreservesWellFormed | src/WaitlistService.php:170-175 | resolving the scope keeps the waitlist table well formed |
| Tables.SetActive | src/Models/Waitlist.php:49-61 | saving `is_active` writes the flag on the row with the id and changes nothing else |
| Tables.SetActivePreservesWellFormed | src/Models/Waitlist.php:49-61 | toggling the flag keeps ids and slugs well formed |
| Tables.InsertEntry | src/WaitlistService.php:66-77 | `add` fails with `DuplicateEntry` exactly when the waitlist already has the e-mail; otherwise it appends one pending row with the next id, no invitation time and the given attributes |
| Tables.InsertPreservesWellFormed | src/WaitlistService.php:66-77 | a successful insert keeps ids increasing, creation order, stamping and per-waitlist e-mail uniqueness |
| Tables.InsertEntryCounts | src/WaitlistService.php:66-77 | a successful insert raises the target waitlist's count by exactly one and leaves every other waitlist's count unchanged |
| Tables.FindEntryById | src/WaitlistService.php:190-197 | `findOrFail($id)` on entries finds a row exactly when a row has the id |
| Tables.ResolveEntry | src/WaitlistService.php:190-197 | an entry handle resolves as-is; an id resolves exactly when a row has it; otherwise `NotFound` |
| Tables.UpdateById | src/Models/WaitlistEntry.php:53-70 | `update(...)` applies the transition to the row with the id, keeps every row's identity and leaves the other rows unchanged |
| Tables.UpdatePreservesWellFormed | src/Models/WaitlistEntry.php:53-70 | a status transition keeps the entry table well formed, including "invited implies stamped" |
| Tables.UpdateKeepsCounts | src/WaitlistService.php:79-98 | invite and reject keep every waitlist's `count()` |
| Tables.UpdateReachesRow | src/WaitlistService.php:79-98 | after the update, looking up the entry's id yields the transitioned entry |
| Service.Store.constructor | src/WaitlistService.php:11-13 | a new service has empty tables, no context and no notices sent |
| Service.Store.For | src/WaitlistService.php:18-23 | `for(x)` sets the context to the resolved waitlist, or fails with `NotFound` and keeps the old context |
| Service.Store.Create | src/WaitlistService.php:28-36 | `create` stores the new waitlist (active unless told otherwise) and `find` returns it; a taken slug fails and changes nothing |
| Service.Store.Find | src/WaitlistService.php:41-44 | `find(slug)` returns the waitlist with the slug, or null exactly when none has it |
| Service.Store.GetDefault | src/WaitlistService.php:49-61 | `getDefault()` returns the waitlist with the default slug, creating it only when it is missing |
| Service.Store.QueryScope | src/WaitlistService.php:170-175 | `query()` scopes to the current waitlist, or to the default one, which it may create |
| Service.Store.Add | src/WaitlistService.php:66-77 | `add` stores a pending entry with the given name, e-mail and metadata in the scoped waitlist, or fails with `DuplicateEntry` exactly when the e-mail is already there, leaving the entries untouched |
| Service.Store.Invite | src/WaitlistService.php:79-90 | `invite` marks the resolved entry invited at the current time and sends exactly one notice to it iff `auto_send_invitation`; an unknown id fails with no change |
| Service.Store.Reject | src/WaitlistService.php:92-98 | `reject` marks the resolved entry rejected and sends nothing; an unknown id fails with no change |
| Service.Store.GetPending | src/WaitlistService.php:103-109 | the scope's pending entries, oldest first |
| Service.Store.GetInvited | src/WaitlistService.php:114-120 | the scope's invited entries, newest invitation first |
| Service.Store.GetAll | src/WaitlistService.php:125-130 | all the scope's entries, newest first |
| Service.Store.GetByEmail | src/WaitlistService.php:132-137 | the scope's entry with the e-mail, if any |
| Service.Store.Exists | src/WaitlistService.php:139-144 | `exists(e)` is true iff `getByEmail(e)` is non-null |
| Service.Store.Count | src/WaitlistService.php:146-149 | the number of the scope's entries |
| Service.Store.CountPending | src/WaitlistService.php:151-156 | the number of the scope's pending entries |
| Service.Store.CountInvited | src/WaitlistService.php:158-163 | the number of the scope's invited entries |
| Service.Store.ActivateWaitlist | src/Models/Waitlist.php:49-54 | the handle comes back active and the stored row with its id is set active |
| Service.Store.DeactivateWaitlist | src/Models/Waitlist.php:56-61 | the handle comes back inactive and the stored row with its id is set inactive |
| Scenarios.BetaOnly | tests/Feature/WaitlistTest.php:305-308 | the first waitlist created gets id 1 and starts active |
| Scenarios.ThenLaunch | tests/Feature/WaitlistTest.php:25-34 | a second waitlist is stored after the first with the next id; re-creating `beta` is refused, which follows from the assumed unique index on `slug` and is not covered by any test |
| Scenarios.JoinBeta | tests/Feature/WaitlistTest.php:36-45 | `for('beta')->add(...)` stores a pending entry in beta |
| Scenarios.SameEmailOtherWaitlist | tests/Feature/WaitlistTest.php:47-55 | the same e-mail may join a second waitlist |
| Scenarios.SameEmailSameWaitlist | tests/Feature/WaitlistTest.php:57-64 | the same e-mail is refused a second time on the same waitlist and nothing is stored |
| Scenarios.InviteSendsOneNotice | tests/Feature/WaitlistTest.php:105-117 | inviting with auto-send on stamps the entry and sends exactly one notice to it |
| Scenarios.InviteWithoutSending | tests/Feature/WaitlistTest.php:278-286 | with auto-send off, inviting sends nothing |
| Scenarios.InviteUnknown | src/WaitlistService.php:190-197 | inviting an unknown id fails and changes nothing |
| Scenarios.DefaultCreatedOnce | src/WaitlistService.php:49-61 | two `getDefault()` calls return the same newly created default waitlist, and only one row is added |
| Scenarios.CountsPerWaitlist | tests/Feature/WaitlistTest.php:81-91 | each waitlist counts only its own entries |

## Left out

- Email verification (`verify`, tokens, `require_before_invite`) and the `invitation_id` bridge: nothing in src/WaitlistService.php or the two models implements them, so they are not modelled.
- HTTP controller, routes, service provider and facade: glue around the service.
- Notification rendering and delivery: a sent invitation is only a `Notice` appended to the ghost outbox; the configured notification class is not modelled.
- Configuration loading: `default_slug` and `auto_send_invitation` are a plain `Config` record read on each call.
- Wall-clock time: `created_at` and `invited_at` are ticks of a logical clock that advances on each insert and invite, so all orderings are total; `updated_at` and the waitlists' timestamps are not modelled.
- Concurrency: races on `firstOrCreate` and on the unique indexes belong to the database.
- Metadata and settings are maps from string to string; PHP's mixed-type JSON values are not modelled.
- Service.Store.For: stores only the id of the selected waitlist, not the Eloquent object, so later changes to that object are not tracked; queries and `add` use only its id, as the source does.
- Service.Store.Invite: with an entry handle, the transition is applied to the stored row with the handle's id, and the returned entry is the handle with the transition applied; Eloquent's dirty-attribute tracking of a stale handle, and `update` on a handle that is not stored, are not modelled.
- Service.Store.Reject: same handle treatment as `Invite`.
- Service.Store.Add: the count changes (+1 for its waitlist, none elsewhere) are proved in `Tables.InsertEntryCounts` about the function it is tied to, not in its own postcondition.
- Service.Store.Invite: the unchanged counts are proved in `Tables.UpdateKeepsCounts`, not in its own postcondition.
- Global e-mail uniqueness and the missing `waitlist_id` column and fillable entry: the model uses per-waitlist uniqueness and stores `waitlist_id`, as the tests require (see above).
- The `entries()` relation (src/Models/Waitlist.php:39-42) is the `waitlistId` field together with `Queries.InScope`. `WaitlistEntry` defines no `waitlist()` relation; only the test at tests/Feature/WaitlistTest.php:297-303 reads `$entry->waitlist`, and the model has no counterpart.
- Tables.CreateWaitlist: this model does not cover the `waitlists` table's migration, and `create` (src/WaitlistService.php:28-36) checks nothing; the model assumes a unique index on `slug` and answers a repeated slug with `DuplicateSlug`.
- Service.Store.Create: same assumed unique index on `slug` as `Tables.CreateWaitlist`.
- Service.Store.ActivateWaitlist: same handle treatment as `Invite`. The flag is written to the stored row with the handle's id; Eloquent skips the UPDATE when the handle's own flag is already the target value, so a stale handle (loaded before another handle changed the row) leaves the row as it is in PHP but not in the model.
- Service.Store.DeactivateWaitlist: same stale-handle difference as `ActivateWaitlist`.
- E-mail and slug comparisons are exact string equality, as under the SQLite database the tests use (tests/TestCase.php:48-52); a case-insensitive collation would change the duplicate check of `add`, `getByEmail`, `exists` and the slug lookups. Null `invited_at` values sort last under `getInvited()`'s descending order, as SQLite does; other databases may place them first.
