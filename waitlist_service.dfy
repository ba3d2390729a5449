/**
 * `WaitlistService` (src/WaitlistService.php): the waitlist and entry tables,
 * the `currentWaitlist` context set by `for()`, the configuration it reads and
 * the notifications it sends.
 */
module Service {
  import opened Wrappers
  import opened Waitlists
  import opened Entries
  import opened Queries
  import opened Tables

  /** The configuration keys the service reads (config/waitlist.php):
      `default_slug` and `auto_send_invitation`. */
  datatype Config = Config(defaultSlug: string, autoSendInvitation: bool)

  /** The invitation notification, addressed to an entry's e-mail. */
  datatype Notice = InvitationNotice(entryId: nat, email: string)

  class Store {
    var waitlists: WaitlistTable
    var entries: EntryTable
    /** The logical clock that stamps `created_at` and `invited_at`. */
    var clock: nat
    /** `currentWaitlist`: the id of the waitlist `for()` selected, if any. */
    var current: Option<nat>
    /** Read on every call, as `config(...)` is; the host may reassign it. */
    var config: Config
    /** Every notification sent so far, oldest first. */
    ghost var outbox: seq<Notice>

    ghost predicate Valid()
      reads this
    {
      WaitlistsWellFormed(waitlists) && EntriesWellFormed(entries, clock)
    }

    /** A fresh service over empty tables, with no waitlist selected. */
    constructor (config: Config)
      ensures Valid()
      ensures waitlists == WaitlistTable([], 1) && entries == EntryTable([], 1) && clock == 0
      ensures current == None && this.config == config && outbox == []
    {
      waitlists := WaitlistTable([], 1);
      entries := EntryTable([], 1);
      clock := 0;
      current := None;
      this.config := config;
      outbox := [];
    }

    /** `for($waitlist)`: selects the context used by every later call. On a
        slug or an id that names no waitlist it fails and keeps the context. */
    method For(ref: WaitlistRef) returns (r: Result<Waitlist, Error>)
      requires Valid()
      modifies this`current
      ensures Valid()
      ensures r == ResolveWaitlist(waitlists, ref)
      ensures current == if r.Ok? then Some(r.value.id) else old(current)
    {
      r := ResolveWaitlist(waitlists, ref);
      if r.Ok? {
        current := Some(r.value.id);
      }
    }

    /** `create(...)`: a new waitlist, active unless told otherwise. */
    method Create(name: string, slug: string, description: Option<string> := None, isActive: bool := true)
      returns (r: Result<Waitlist, Error>)
      requires Valid()
      modifies this`waitlists
      ensures Valid()
      ensures var c := CreateWaitlist(old(waitlists), name, slug, description, isActive);
        && (c.Ok? ==> r == Ok(c.value.waitlist) && waitlists == c.value.table)
        && (c.Err? ==> r == Err(c.error) && waitlists == old(waitlists))
      ensures r.Err? <==> HasSlug(old(waitlists).rows, slug)
      ensures r.Ok? ==> IsActive(r.value) == isActive && FindBySlug(waitlists.rows, slug) == Some(r.value)
    {
      var c := CreateWaitlist(waitlists, name, slug, description, isActive);
      match c
      case Ok(res) =>
        CreatePreservesWellFormed(waitlists, name, slug, description, isActive);
        waitlists := res.table;
        r := Ok(res.waitlist);
      case Err(e) =>
        r := Err(e);
    }

    /** `find($slug)`: the waitlist with the slug, if any; creates nothing. */
    method Find(slug: string) returns (r: Option<Waitlist>)
      ensures r == FindBySlug(waitlists.rows, slug)
    {
      r := FindBySlug(waitlists.rows, slug);
    }

    /** `getDefault()`: the waitlist whose slug is `default_slug`, created on
        first use; every later call returns the same row and creates nothing. */
    method GetDefault() returns (w: Waitlist)
      requires Valid()
      modifies this`waitlists
      ensures Valid()
      ensures FirstOrCreate(old(waitlists), config.defaultSlug) == Resolved(waitlists, w)
      ensures w.slug == config.defaultSlug && FindBySlug(waitlists.rows, config.defaultSlug) == Some(w)
      ensures HasSlug(old(waitlists).rows, config.defaultSlug) ==> waitlists == old(waitlists)
    {
      var res := FirstOrCreate(waitlists, config.defaultSlug);
      FirstOrCreatePreservesWellFormed(waitlists, config.defaultSlug);
      waitlists := res.table;
      w := res.waitlist;
    }

    /** `query()`: the id every entry query is restricted to, the current
        waitlist or else the default one (which this may create). */
    method QueryScope() returns (wid: nat)
      requires Valid()
      modifies this`waitlists
      ensures Valid()
      ensures ResolveScope(old(waitlists), current, config.defaultSlug) == Scope(waitlists, wid)
    {
      match current
      case Some(id) =>
        wid := id;
      case None =>
        var w := GetDefault();
        wid := w.id;
    }

    /** `add($name, $email, $metadata)`: a pending entry of the current (or
        default) waitlist, refused when the e-mail is already on it. */
    method Add(name: string, email: string, metadata: Metadata := map[]) returns (r: Result<Entry, Error>)
      requires Valid()
      modifies this`waitlists, this`entries, this`clock
      ensures Valid()
      ensures waitlists == ResolveScope(old(waitlists), current, config.defaultSlug).table
      ensures var ins := InsertEntry(old(entries), ResolveScope(old(waitlists), current, config.defaultSlug).waitlistId,
                                     name, email, metadata, old(clock));
        ins.Ok? ==> r == Ok(ins.value.entry) && entries == ins.value.table && clock == old(clock) + 1
      ensures var ins := InsertEntry(old(entries), ResolveScope(old(waitlists), current, config.defaultSlug).waitlistId,
                                     name, email, metadata, old(clock));
        ins.Err? ==> r == Err(ins.error) && entries == old(entries) && clock == old(clock)
      ensures var wid := ResolveScope(old(waitlists), current, config.defaultSlug).waitlistId;
        r.Err? <==> HasEmail(old(entries).rows, wid, email)
      ensures var wid := ResolveScope(old(waitlists), current, config.defaultSlug).waitlistId;
        r.Ok? ==> && r.value.waitlistId == wid && IsPending(r.value) && r.value.name == name
                  && r.value.email == email && r.value.metadata == metadata
    {
      var wid := QueryScope();
      var ins := InsertEntry(entries, wid, name, email, metadata, clock);
      if ins.Ok? {
        InsertPreservesWellFormed(entries, wid, name, email, metadata, clock);
        entries := ins.value.table;
        clock := clock + 1;
        r := Ok(ins.value.entry);
      } else {
        r := Err(ins.error);
      }
    }

    /** `invite($entry)`: marks the entry invited at the current time and, when
        `auto_send_invitation` is on, sends it one invitation. Any status may
        be invited. An unknown id fails and changes nothing. */
    method Invite(ref: EntryRef) returns (r: Result<Entry, Error>)
      requires Valid()
      modifies this`entries, this`clock, this`outbox
      ensures Valid()
      ensures match ResolveEntry(old(entries), ref)
        case Err(e) =>
          r == Err(e) && entries == old(entries) && clock == old(clock) && outbox == old(outbox)
        case Ok(target) =>
          && r == Ok(MarkAsInvited(target, old(clock)))
          && entries == UpdateById(old(entries), target.id, ToInvited(old(clock)))
          && clock == old(clock) + 1
          && outbox == old(outbox) + (if config.autoSendInvitation then [InvitationNotice(target.id, target.email)] else [])
      ensures r.Ok? ==> IsInvited(r.value) && r.value.invitedAt.Some?
    {
      r := ResolveEntry(entries, ref);
      if r.Ok? {
        var target := r.value;
        UpdatePreservesWellFormed(entries, target.id, ToInvited(clock), clock, clock + 1);
        entries := UpdateById(entries, target.id, ToInvited(clock));
        r := Ok(MarkAsInvited(target, clock));
        clock := clock + 1;
        if config.autoSendInvitation {
          outbox := outbox + [InvitationNotice(target.id, target.email)];
        }
      }
    }

    /** `reject($entry)`: marks the entry rejected and sends nothing. Any
        status may be rejected. An unknown id fails and changes nothing. */
    method Reject(ref: EntryRef) returns (r: Result<Entry, Error>)
      requires Valid()
      modifies this`entries
      ensures Valid()
      ensures match ResolveEntry(old(entries), ref)
        case Err(e) => r == Err(e) && entries == old(entries)
        case Ok(target) =>
          r == Ok(MarkAsRejected(target)) && entries == UpdateById(old(entries), target.id, ToRejected)
      ensures r.Ok? ==> IsRejected(r.value)
    {
      r := ResolveEntry(entries, ref);
      if r.Ok? {
        var target := r.value;
        UpdatePreservesWellFormed(entries, target.id, ToRejected, clock, clock);
        entries := UpdateById(entries, target.id, ToRejected);
        r := Ok(MarkAsRejected(target));
      }
    }

    /** `getPending()`: exactly the pending entries of the scope, oldest first. */
    method GetPending() returns (r: seq<Entry>)
      requires Valid()
      modifies this`waitlists
      ensures Valid()
      ensures var s := ResolveScope(old(waitlists), current, config.defaultSlug);
        waitlists == s.table && r == PendingOldestFirst(entries.rows, s.waitlistId)
      ensures AscendingCreated(r)
    {
      var wid := QueryScope();
      r := PendingOldestFirst(entries.rows, wid);
    }

    /** `getInvited()`: exactly the invited entries of the scope, most recently
        invited first. */
    method GetInvited() returns (r: seq<Entry>)
      requires Valid()
      modifies this`waitlists
      ensures Valid()
      ensures var s := ResolveScope(old(waitlists), current, config.defaultSlug);
        waitlists == s.table && r == InvitedNewestFirst(entries.rows, s.waitlistId)
      ensures DescendingInvite(r)
    {
      var wid := QueryScope();
      r := InvitedNewestFirst(entries.rows, wid);
    }

    /** `getAll()`: every entry of the scope, newest first. */
    method GetAll() returns (r: seq<Entry>)
      requires Valid()
      modifies this`waitlists
      ensures Valid()
      ensures var s := ResolveScope(old(waitlists), current, config.defaultSlug);
        waitlists == s.table && r == AllNewestFirst(entries.rows, s.waitlistId)
      ensures DescendingCreated(r)
    {
      var wid := QueryScope();
      r := AllNewestFirst(entries.rows, wid);
    }

    /** `getByEmail($email)`: the entry of the scope with the e-mail, if any. */
    method GetByEmail(email: string) returns (r: Option<Entry>)
      requires Valid()
      modifies this`waitlists
      ensures Valid()
      ensures var s := ResolveScope(old(waitlists), current, config.defaultSlug);
        waitlists == s.table && r == FirstByEmail(entries.rows, s.waitlistId, email)
    {
      var wid := QueryScope();
      r := FirstByEmail(entries.rows, wid, email);
    }

    /** `exists($email)`: whether the scope has an entry with the e-mail. */
    method Exists(email: string) returns (b: bool)
      requires Valid()
      modifies this`waitlists
      ensures Valid()
      ensures var s := ResolveScope(old(waitlists), current, config.defaultSlug);
        waitlists == s.table && b == HasEmail(entries.rows, s.waitlistId, email)
      ensures b <==> FirstByEmail(entries.rows, ResolveScope(old(waitlists), current, config.defaultSlug).waitlistId, email).Some?
    {
      var wid := QueryScope();
      b := HasEmail(entries.rows, wid, email);
    }

    /** `count()`. */
    method Count() returns (n: nat)
      requires Valid()
      modifies this`waitlists
      ensures Valid()
      ensures var s := ResolveScope(old(waitlists), current, config.defaultSlug);
        waitlists == s.table && n == EntryCount(entries.rows, s.waitlistId)
    {
      var wid := QueryScope();
      n := EntryCount(entries.rows, wid);
    }

    /** `countPending()`. */
    method CountPending() returns (n: nat)
      requires Valid()
      modifies this`waitlists
      ensures Valid()
      ensures var s := ResolveScope(old(waitlists), current, config.defaultSlug);
        waitlists == s.table && n == PendingCount(entries.rows, s.waitlistId)
    {
      var wid := QueryScope();
      n := PendingCount(entries.rows, wid);
    }

    /** `countInvited()`. */
    method CountInvited() returns (n: nat)
      requires Valid()
      modifies this`waitlists
      ensures Valid()
      ensures var s := ResolveScope(old(waitlists), current, config.defaultSlug);
        waitlists == s.table && n == InvitedCount(entries.rows, s.waitlistId)
    {
      var wid := QueryScope();
      n := InvitedCount(entries.rows, wid);
    }

    /** `$waitlist->activate()`: the handle comes back active and the stored
        row with its id is set active. */
    method ActivateWaitlist(w: Waitlist) returns (r: Waitlist)
      requires Valid()
      modifies this`waitlists
      ensures Valid()
      ensures r == Activate(w) && waitlists == SetActive(old(waitlists), w.id, true)
    {
      r := Activate(w);
      SetActivePreservesWellFormed(waitlists, w.id, true);
      waitlists := SetActive(waitlists, w.id, true);
    }

    /** `$waitlist->deactivate()`. */
    method DeactivateWaitlist(w: Waitlist) returns (r: Waitlist)
      requires Valid()
      modifies this`waitlists
      ensures Valid()
      ensures r == Deactivate(w) && waitlists == SetActive(old(waitlists), w.id, false)
    {
      r := Deactivate(w);
      SetActivePreservesWellFormed(waitlists, w.id, false);
      waitlists := SetActive(waitlists, w.id, false);
    }
  }
}
