/**
 * A row of the `waitlist_entries` table (src/Models/WaitlistEntry.php): one
 * registrant of one waitlist and its three-valued status.
 *
 * Timestamps are ticks of the store's logical clock (a `nat`), not wall-clock
 * times.
 */
module Entries {
  import opened Wrappers

  /** The `metadata` array given to `add`; values are kept as strings. */
  type Metadata = map<string, string>

  /** The `status` column: only these three values are ever written. */
  datatype Status = Pending | Invited | Rejected

  datatype Entry = Entry(
    id: nat,
    waitlistId: nat,
    name: string,
    email: string,
    status: Status,
    invitedAt: Option<nat>,
    metadata: Metadata,
    createdAt: nat)

  predicate IsPending(e: Entry) {
    e.status == Pending
  }

  predicate IsInvited(e: Entry) {
    e.status == Invited
  }

  predicate IsRejected(e: Entry) {
    e.status == Rejected
  }

  /** Exactly one of the three status checks holds of every entry. */
  lemma StatusChecksExclusive(e: Entry)
    ensures IsPending(e) || IsInvited(e) || IsRejected(e)
    ensures IsPending(e) ==> !IsInvited(e) && !IsRejected(e)
    ensures IsInvited(e) ==> !IsRejected(e)
  {
  }

  /** The attributes that no status transition writes. */
  predicate SameIdentity(a: Entry, b: Entry) {
    && a.id == b.id
    && a.waitlistId == b.waitlistId
    && a.name == b.name
    && a.email == b.email
    && a.metadata == b.metadata
    && a.createdAt == b.createdAt
  }

  /** An invited entry carries its invitation time. */
  predicate InviteStamped(e: Entry) {
    IsInvited(e) ==> e.invitedAt.Some?
  }

  /** `markAsInvited()` at logical time `now`; allowed from any status. */
  function MarkAsInvited(e: Entry, now: nat): (r: Entry)
    ensures IsInvited(r) && r.invitedAt == Some(now)
    ensures SameIdentity(r, e)
    ensures InviteStamped(r)
  {
    e.(status := Invited, invitedAt := Some(now))
  }

  /** `markAsRejected()`: only the status is written, so an earlier
      invitation time survives; allowed from any status. */
  function MarkAsRejected(e: Entry): (r: Entry)
    ensures IsRejected(r) && r.invitedAt == e.invitedAt
    ensures SameIdentity(r, e)
    ensures InviteStamped(r)
  {
    e.(status := Rejected)
  }

  /** The two transitions `WaitlistService` applies to a stored row. */
  datatype Transition = ToInvited(at: nat) | ToRejected

  function Apply(e: Entry, t: Transition): (r: Entry)
    ensures SameIdentity(r, e)
    ensures InviteStamped(r)
    ensures t.ToInvited? ==> IsInvited(r) && r.invitedAt == Some(t.at)
    ensures t.ToRejected? ==> IsRejected(r) && r.invitedAt == e.invitedAt
  {
    match t
    case ToInvited(at) => MarkAsInvited(e, at)
    case ToRejected => MarkAsRejected(e)
  }

  /** Rejecting an invited entry keeps its invitation time. */
  lemma RejectKeepsInviteTime(e: Entry, now: nat)
    ensures MarkAsRejected(MarkAsInvited(e, now)).invitedAt == Some(now)
  {
  }

  /** The last transition decides the status; the attributes never move. */
  lemma TransitionsCompose(e: Entry, t1: Transition, t2: Transition)
    ensures SameIdentity(Apply(Apply(e, t1), t2), e)
    ensures Apply(Apply(e, t1), t2).status == Apply(e, t2).status
  {
  }
}
