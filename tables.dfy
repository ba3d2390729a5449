/**
 * The `waitlists` and `waitlist_entries` tables as sequences of rows in
 * insertion order, each with its auto-increment counter, together with the
 * uniqueness rules the database enforces and the lookups, inserts and updates
 * that `WaitlistService` and the two models issue (src/WaitlistService.php,
 * src/Models/Waitlist.php, src/Models/WaitlistEntry.php).
 */
module Tables {
  import opened Wrappers
  import opened Waitlists
  import opened Entries
  import opened Queries

  /** The failures the service raises: `findOrFail`/`firstOrFail` misses and
      unique-index violations. */
  datatype Error = NotFound | DuplicateEntry | DuplicateSlug

  datatype WaitlistTable = WaitlistTable(rows: seq<Waitlist>, nextId: nat)

  datatype EntryTable = EntryTable(rows: seq<Entry>, nextId: nat)

  // ---------------------------------------------------------------- waitlists

  /** Ids are assigned in increasing order and stay below the counter; the
      slug is a unique key. */
  ghost predicate WaitlistsWellFormed(t: WaitlistTable) {
    && (forall i, j :: 0 <= i < j < |t.rows| ==> t.rows[i].id < t.rows[j].id)
    && (forall i :: 0 <= i < |t.rows| ==> t.rows[i].id < t.nextId)
    && (forall i, j :: 0 <= i < j < |t.rows| ==> t.rows[i].slug != t.rows[j].slug)
  }

  predicate HasSlug(rows: seq<Waitlist>, slug: string) {
    exists i | 0 <= i < |rows| :: rows[i].slug == slug
  }

  predicate HasWaitlistId(rows: seq<Waitlist>, id: nat) {
    exists i | 0 <= i < |rows| :: rows[i].id == id
  }

  /** `Waitlist::where('slug', $slug)->first()`. */
  function FindBySlug(rows: seq<Waitlist>, slug: string): (r: Option<Waitlist>)
    ensures r.Some? <==> HasSlug(rows, slug)
    ensures r.Some? ==> r.value in rows && r.value.slug == slug
  {
    if |rows| == 0 then None
    else if rows[0].slug == slug then Some(rows[0])
    else
      assert HasSlug(rows, slug) ==> HasSlug(rows[1..], slug) by {
        if HasSlug(rows, slug) {
          var i :| 0 <= i < |rows| && rows[i].slug == slug;
          assert rows[1..][i - 1] == rows[i];
        }
      }
      FindBySlug(rows[1..], slug)
  }

  /** `Waitlist::find($id)`. */
  function FindWaitlistById(rows: seq<Waitlist>, id: nat): (r: Option<Waitlist>)
    ensures r.Some? <==> HasWaitlistId(rows, id)
    ensures r.Some? ==> r.value in rows && r.value.id == id
  {
    if |rows| == 0 then None
    else if rows[0].id == id then Some(rows[0])
    else
      assert HasWaitlistId(rows, id) ==> HasWaitlistId(rows[1..], id) by {
        if HasWaitlistId(rows, id) {
          var i :| 0 <= i < |rows| && rows[i].id == id;
          assert rows[1..][i - 1] == rows[i];
        }
      }
      FindWaitlistById(rows[1..], id)
  }

  /** In a well-formed table the slug lookup finds the one row with that slug. */
  lemma FindBySlugUnique(t: WaitlistTable, w: Waitlist)
    requires WaitlistsWellFormed(t) && w in t.rows
    ensures FindBySlug(t.rows, w.slug) == Some(w)
  {
    var r := FindBySlug(t.rows, w.slug).value;
    var i :| 0 <= i < |t.rows| && t.rows[i] == r;
    var j :| 0 <= j < |t.rows| && t.rows[j] == w;
    assert i == j;
  }

  /** Appending a row leaves the lookup of a slug already present unchanged
      and makes a new slug find the appended row. */
  lemma {:induction false} FindBySlugAppend(rows: seq<Waitlist>, w: Waitlist, slug: string)
    ensures HasSlug(rows, slug) ==> FindBySlug(rows + [w], slug) == FindBySlug(rows, slug)
    ensures !HasSlug(rows, slug) && w.slug == slug ==> FindBySlug(rows + [w], slug) == Some(w)
    ensures !HasSlug(rows, slug) && w.slug != slug ==> FindBySlug(rows + [w], slug) == None
  {
    if |rows| == 0 {
      assert rows + [w] == [w];
      assert [w][1..] == [];
    } else {
      assert (rows + [w])[1..] == rows[1..] + [w];
      FindBySlugAppend(rows[1..], w, slug);
    }
  }

  /** Appending a row leaves the lookup of an id already present unchanged. */
  lemma {:induction false} FindWaitlistByIdAppend(rows: seq<Waitlist>, w: Waitlist, id: nat)
    requires HasWaitlistId(rows, id)
    ensures FindWaitlistById(rows + [w], id) == FindWaitlistById(rows, id)
  {
    assert |rows| > 0;
    assert (rows + [w])[1..] == rows[1..] + [w];
    if rows[0].id != id {
      FindWaitlistByIdAppend(rows[1..], w, id);
    }
  }

  /** The attributes `getDefault` gives the default waitlist it creates. */
  function DefaultWaitlist(id: nat, slug: string): Waitlist {
    Waitlist(id, "Default Waitlist", slug, Some("Default waitlist"), true, None)
  }

  /** A waitlists table together with the row an operation produced. */
  datatype Resolved = Resolved(table: WaitlistTable, waitlist: Waitlist)

  /** `Waitlist::create([...])` under the unique slug: the new row takes the
      next id and no settings. */
  function CreateWaitlist(t: WaitlistTable, name: string, slug: string, description: Option<string>, isActive: bool)
    : (r: Result<Resolved, Error>)
    ensures r.Err? <==> HasSlug(t.rows, slug)
    ensures r.Err? ==> r.error == DuplicateSlug
    ensures r.Ok? ==> r.value.table == WaitlistTable(t.rows + [r.value.waitlist], t.nextId + 1)
    ensures r.Ok? ==> var w := r.value.waitlist;
      && w.id == t.nextId && w.name == name && w.slug == slug
      && w.description == description && w.isActive == isActive && w.settings == None
    ensures r.Ok? ==> FindBySlug(r.value.table.rows, slug) == Some(r.value.waitlist)
  {
    if HasSlug(t.rows, slug) then Err(DuplicateSlug)
    else
      var w := Waitlist(t.nextId, name, slug, description, isActive, None);
      FindBySlugAppend(t.rows, w, slug);
      Ok(Resolved(WaitlistTable(t.rows + [w], t.nextId + 1), w))
  }

  /** A created waitlist takes the next id and a slug no row has yet. */
  lemma CreatePreservesWellFormed(t: WaitlistTable, name: string, slug: string, description: Option<string>, isActive: bool)
    requires WaitlistsWellFormed(t)
    requires CreateWaitlist(t, name, slug, description, isActive).Ok?
    ensures WaitlistsWellFormed(CreateWaitlist(t, name, slug, description, isActive).value.table)
  {
  }

  /** `Waitlist::firstOrCreate(['slug' => $slug], [...])`: the row with the
      slug if there is one, otherwise a new default row. */
  function FirstOrCreate(t: WaitlistTable, slug: string): (r: Resolved)
    ensures r.waitlist.slug == slug
    ensures FindBySlug(r.table.rows, slug) == Some(r.waitlist)
    ensures HasSlug(t.rows, slug) ==> r.table == t
    ensures !HasSlug(t.rows, slug) ==>
      && r.table == WaitlistTable(t.rows + [r.waitlist], t.nextId + 1)
      && r.waitlist == DefaultWaitlist(t.nextId, slug)
  {
    match FindBySlug(t.rows, slug)
    case Some(w) => Resolved(t, w)
    case None =>
      var w := DefaultWaitlist(t.nextId, slug);
      FindBySlugAppend(t.rows, w, slug);
      Resolved(WaitlistTable(t.rows + [w], t.nextId + 1), w)
  }

  /** Getting the default twice gives the same row and the same table as
      getting it once: at most one default waitlist is ever created. */
  lemma FirstOrCreateIdempotent(t: WaitlistTable, slug: string)
    ensures FirstOrCreate(FirstOrCreate(t, slug).table, slug) == FirstOrCreate(t, slug)
  {
  }

  /** In a well-formed table, after first-or-create the resolved row is the
      only row that carries the slug. */
  lemma FirstOrCreateSingleRow(t: WaitlistTable, slug: string, w: Waitlist)
    requires WaitlistsWellFormed(t)
    requires w in FirstOrCreate(t, slug).table.rows && w.slug == slug
    ensures w == FirstOrCreate(t, slug).waitlist
  {
    FindBySlugUnique(FirstOrCreate(t, slug).table, w);
  }

  /** The ways `for()` accepts a waitlist: a slug, an id, or a model handle. */
  datatype WaitlistRef = BySlug(slug: string) | ById(id: nat) | Handle(waitlist: Waitlist)

  /** `resolveWaitlist`: a handle is used as it is; a slug or an id must name a
      row (`firstOrFail` / `findOrFail`). */
  function ResolveWaitlist(t: WaitlistTable, ref: WaitlistRef): (r: Result<Waitlist, Error>)
    ensures ref.Handle? ==> r == Ok(ref.waitlist)
    ensures ref.BySlug? ==> (r.Ok? <==> HasSlug(t.rows, ref.slug))
    ensures ref.BySlug? && r.Ok? ==> r.value in t.rows && r.value.slug == ref.slug
    ensures ref.ById? ==> (r.Ok? <==> HasWaitlistId(t.rows, ref.id))
    ensures ref.ById? && r.Ok? ==> r.value in t.rows && r.value.id == ref.id
    ensures r.Err? ==> r.error == NotFound
  {
    match ref
    case Handle(w) => Ok(w)
    case ById(id) =>
      (match FindWaitlistById(t.rows, id)
       case Some(w) => Ok(w)
       case None => Err(NotFound))
    case BySlug(slug) =>
      (match FindBySlug(t.rows, slug)
       case Some(w) => Ok(w)
       case None => Err(NotFound))
  }

  /** The waitlists table and the waitlist id a query is scoped to. */
  datatype Scope = Scope(table: WaitlistTable, waitlistId: nat)

  /** `$this->currentWaitlist ?? $this->getDefault()`: the waitlist set by
      `for()`, or else the default one, created if it is missing. */
  function ResolveScope(t: WaitlistTable, current: Option<nat>, defaultSlug: string): (r: Scope)
    ensures current.Some? ==> r.table == t && r.waitlistId == current.value
    ensures current.None? ==>
      var d := FindBySlug(r.table.rows, defaultSlug); d.Some? && d.value.id == r.waitlistId
    ensures current.None? && HasSlug(t.rows, defaultSlug) ==> r.table == t
    ensures current.None? ==>
      r == Scope(FirstOrCreate(t, defaultSlug).table, FirstOrCreate(t, defaultSlug).waitlist.id)
    ensures |r.table.rows| <= |t.rows| + 1
  {
    match current
    case Some(id) => Scope(t, id)
    case None =>
      var d := FirstOrCreate(t, defaultSlug);
      Scope(d.table, d.waitlist.id)
  }

  /** Creating the default waitlist when it is missing keeps ids increasing
      and slugs unique. */
  lemma FirstOrCreatePreservesWellFormed(t: WaitlistTable, slug: string)
    requires WaitlistsWellFormed(t)
    ensures WaitlistsWellFormed(FirstOrCreate(t, slug).table)
  {
  }

  lemma ResolveScopePreservesWellFormed(t: WaitlistTable, current: Option<nat>, defaultSlug: string)
    requires WaitlistsWellFormed(t)
    ensures WaitlistsWellFormed(ResolveScope(t, current, defaultSlug).table)
  {
    if current.None? {
      FirstOrCreatePreservesWellFormed(t, defaultSlug);
    }
  }

  /** `activate()` / `deactivate()` written back to the row with the id. */
  function SetActive(t: WaitlistTable, id: nat, flag: bool): (r: WaitlistTable)
    ensures r.nextId == t.nextId && |r.rows| == |t.rows|
    ensures forall i :: 0 <= i < |t.rows| ==> SameDescriptors(r.rows[i], t.rows[i])
    ensures forall i :: 0 <= i < |t.rows| && t.rows[i].id == id ==> IsActive(r.rows[i]) == flag
    ensures forall i :: 0 <= i < |t.rows| && t.rows[i].id != id ==> r.rows[i] == t.rows[i]
  {
    var rows := seq(|t.rows|, i requires 0 <= i < |t.rows| =>
      if t.rows[i].id == id then (if flag then Activate(t.rows[i]) else Deactivate(t.rows[i]))
      else t.rows[i]);
    WaitlistTable(rows, t.nextId)
  }

  /** Toggling `is_active` touches neither ids nor slugs. */
  lemma SetActivePreservesWellFormed(t: WaitlistTable, id: nat, flag: bool)
    requires WaitlistsWellFormed(t)
    ensures WaitlistsWellFormed(SetActive(t, id, flag))
  {
    var r := SetActive(t, id, flag);
    assert forall i :: 0 <= i < |t.rows| ==> r.rows[i].id == t.rows[i].id && r.rows[i].slug == t.rows[i].slug;
  }

  // ------------------------------------------------------------------ entries

  /** Ids increase with the order of insertion and stay below the counter;
      creation times strictly increase and lie before the clock; every invited
      row carries its invitation time; `(waitlist_id, email)` is unique. */
  ghost predicate EntriesWellFormed(t: EntryTable, clock: nat) {
    && (forall i, j :: 0 <= i < j < |t.rows| ==> t.rows[i].id < t.rows[j].id)
    && (forall i :: 0 <= i < |t.rows| ==> t.rows[i].id < t.nextId)
    && AscendingCreated(t.rows)
    && (forall i :: 0 <= i < |t.rows| ==> t.rows[i].createdAt < clock)
    && (forall i :: 0 <= i < |t.rows| ==> InviteStamped(t.rows[i]))
    && UniqueEmailPerWaitlist(t.rows)
  }

  /** The unique index the service relies on. The shipped migration
      (database/migrations/2024_01_01_000000_create_waitlist_entries_table.php:16)
      makes `email` unique across the whole table and has no `waitlist_id`
      column, but the feature tests require the same e-mail to be accepted on
      two different waitlists and refused twice on one; this model follows the
      tests and keys uniqueness on `(waitlist_id, email)`. */
  ghost predicate UniqueEmailPerWaitlist(rows: seq<Entry>) {
    forall i, j :: 0 <= i < j < |rows| ==>
      rows[i].waitlistId != rows[j].waitlistId || rows[i].email != rows[j].email
  }

  /** A table and the row an insert produced. */
  datatype Inserted = Inserted(table: EntryTable, entry: Entry)

  /** `WaitlistEntry::create([...])` with status `pending` at logical time `now`:
      refused when the e-mail is already on the waitlist. */
  function InsertEntry(t: EntryTable, wid: nat, name: string, email: string, metadata: Metadata, now: nat)
    : (r: Result<Inserted, Error>)
    ensures r.Err? <==> HasEmail(t.rows, wid, email)
    ensures r.Err? ==> r.error == DuplicateEntry
    ensures r.Ok? ==> var e := r.value.entry;
      && e.id == t.nextId && e.waitlistId == wid && e.name == name && e.email == email
      && IsPending(e) && e.invitedAt == None && e.metadata == metadata && e.createdAt == now
    ensures r.Ok? ==> r.value.table == EntryTable(t.rows + [r.value.entry], t.nextId + 1)
  {
    if HasEmail(t.rows, wid, email) then Err(DuplicateEntry)
    else
      var e := Entry(t.nextId, wid, name, email, Pending, None, metadata, now);
      Ok(Inserted(EntryTable(t.rows + [e], t.nextId + 1), e))
  }

  /** An insert at the current clock keeps the entries table well formed: the
      new row has the largest id and the latest creation time, and its e-mail
      was not yet on its waitlist. */
  lemma InsertPreservesWellFormed(t: EntryTable, wid: nat, name: string, email: string, metadata: Metadata, now: nat)
    requires EntriesWellFormed(t, now)
    requires InsertEntry(t, wid, name, email, metadata, now).Ok?
    ensures EntriesWellFormed(InsertEntry(t, wid, name, email, metadata, now).value.table, now + 1)
  {
  }

  /** A successful insert adds one row to its own waitlist's count and
      leaves every other waitlist's count as it was. */
  lemma InsertEntryCounts(t: EntryTable, wid: nat, name: string, email: string, metadata: Metadata, now: nat)
    requires InsertEntry(t, wid, name, email, metadata, now).Ok?
    ensures var rows' := InsertEntry(t, wid, name, email, metadata, now).value.table.rows;
      && EntryCount(rows', wid) == EntryCount(t.rows, wid) + 1
      && forall other :: other != wid ==> EntryCount(rows', other) == EntryCount(t.rows, other)
  {
    var ins := InsertEntry(t, wid, name, email, metadata, now).value;
    AppendToScope(t.rows, ins.entry, wid);
    forall other | other != wid
      ensures EntryCount(ins.table.rows, other) == EntryCount(t.rows, other)
    {
      AppendToOtherScope(t.rows, ins.entry, other, email);
    }
  }

  predicate HasEntryId(rows: seq<Entry>, id: nat) {
    exists i | 0 <= i < |rows| :: rows[i].id == id
  }

  /** `WaitlistEntry::find($id)`. */
  function FindEntryById(rows: seq<Entry>, id: nat): (r: Option<Entry>)
    ensures r.Some? <==> HasEntryId(rows, id)
    ensures r.Some? ==> r.value in rows && r.value.id == id
  {
    if |rows| == 0 then None
    else if rows[0].id == id then Some(rows[0])
    else
      assert HasEntryId(rows, id) ==> HasEntryId(rows[1..], id) by {
        if HasEntryId(rows, id) {
          var i :| 0 <= i < |rows| && rows[i].id == id;
          assert rows[1..][i - 1] == rows[i];
        }
      }
      FindEntryById(rows[1..], id)
  }

  /** The ways `invite` and `reject` accept an entry: an id or a model handle. */
  datatype EntryRef = EntryId(id: nat) | EntryHandle(entry: Entry)

  /** `resolveEntry`: a handle is used as it is; an id must name a row of any
      waitlist (`findOrFail` is not scoped to the current waitlist). */
  function ResolveEntry(t: EntryTable, ref: EntryRef): (r: Result<Entry, Error>)
    ensures ref.EntryHandle? ==> r == Ok(ref.entry)
    ensures ref.EntryId? ==> (r.Ok? <==> HasEntryId(t.rows, ref.id))
    ensures ref.EntryId? && r.Ok? ==> r.value in t.rows && r.value.id == ref.id
    ensures r.Err? ==> r.error == NotFound
  {
    match ref
    case EntryHandle(e) => Ok(e)
    case EntryId(id) =>
      match FindEntryById(t.rows, id)
      case Some(e) => Ok(e)
      case None => Err(NotFound)
  }

  /** The model's `update([...])` written back to the row with the id: only
      that row changes, and only in status and invitation time. */
  function UpdateById(t: EntryTable, id: nat, tr: Transition): (r: EntryTable)
    ensures r.nextId == t.nextId && |r.rows| == |t.rows|
    ensures forall i :: 0 <= i < |t.rows| ==> SameIdentity(r.rows[i], t.rows[i])
    ensures forall i :: 0 <= i < |t.rows| && t.rows[i].id == id ==> r.rows[i] == Apply(t.rows[i], tr)
    ensures forall i :: 0 <= i < |t.rows| && t.rows[i].id != id ==> r.rows[i] == t.rows[i]
  {
    var rows := seq(|t.rows|, i requires 0 <= i < |t.rows| =>
      if t.rows[i].id == id then Apply(t.rows[i], tr) else t.rows[i]);
    EntryTable(rows, t.nextId)
  }

  /** A status transition keeps the entries table well formed, whatever the
      status the row had, and the clock may move on afterwards. */
  lemma UpdatePreservesWellFormed(t: EntryTable, id: nat, tr: Transition, clock: nat, clock': nat)
    requires EntriesWellFormed(t, clock) && clock <= clock'
    ensures EntriesWellFormed(UpdateById(t, id, tr), clock')
  {
    var r := UpdateById(t, id, tr);
    assert forall i :: 0 <= i < |t.rows| ==> r.rows[i].createdAt == t.rows[i].createdAt;
    assert forall i :: 0 <= i < |t.rows| ==> r.rows[i].waitlistId == t.rows[i].waitlistId && r.rows[i].email == t.rows[i].email;
  }

  /** A status transition moves no row between waitlists, so every
      waitlist's `count()` is what it was. */
  lemma UpdateKeepsCounts(t: EntryTable, id: nat, tr: Transition)
    ensures forall wid :: EntryCount(UpdateById(t, id, tr).rows, wid) == EntryCount(t.rows, wid)
  {
    var r := UpdateById(t, id, tr);
    forall wid ensures EntryCount(r.rows, wid) == EntryCount(t.rows, wid) {
      CountUnchangedByTransitions(t.rows, r.rows, wid);
    }
  }

  /** After a transition the row with the id carries its effect; with distinct
      ids there is exactly one such row. */
  lemma UpdateReachesRow(t: EntryTable, e: Entry, tr: Transition, clock: nat)
    requires EntriesWellFormed(t, clock) && e in t.rows
    ensures FindEntryById(UpdateById(t, e.id, tr).rows, e.id) == Some(Apply(e, tr))
  {
    var r := UpdateById(t, e.id, tr);
    var k :| 0 <= k < |t.rows| && t.rows[k] == e;
    var f := FindEntryById(r.rows, e.id).value;
    var m :| 0 <= m < |r.rows| && r.rows[m] == f;
    assert r.rows[m].id == t.rows[m].id;
    assert m == k;
  }
}
