/**
 * A row of the `waitlists` table (src/Models/Waitlist.php): a named, slugged
 * collection that scopes entries, with an `is_active` flag.
 */
module Waitlists {
  import opened Wrappers

  /** The free-form `settings` array; values are kept as strings. */
  type Settings = map<string, string>

  datatype Waitlist = Waitlist(
    id: nat,
    name: string,
    slug: string,
    description: Option<string>,
    isActive: bool,
    settings: Option<Settings>)

  /** `isActive()`: the stored flag. */
  predicate IsActive(w: Waitlist) {
    w.isActive
  }

  /** Every attribute other than `is_active` agrees. */
  predicate SameDescriptors(a: Waitlist, b: Waitlist) {
    && a.id == b.id
    && a.name == b.name
    && a.slug == b.slug
    && a.description == b.description
    && a.settings == b.settings
  }

  /** The record after `activate()`. */
  function Activate(w: Waitlist): (r: Waitlist)
    ensures IsActive(r)
    ensures SameDescriptors(r, w)
  {
    w.(isActive := true)
  }

  /** The record after `deactivate()`. */
  function Deactivate(w: Waitlist): (r: Waitlist)
    ensures !IsActive(r)
    ensures SameDescriptors(r, w)
  {
    w.(isActive := false)
  }

  /** The contracts of Activate and Deactivate determine the whole record. */
  lemma SameDescriptorsAndFlag(a: Waitlist, b: Waitlist)
    requires SameDescriptors(a, b) && IsActive(a) == IsActive(b)
    ensures a == b
  {
  }

  lemma ActivateIdempotent(w: Waitlist)
    ensures Activate(Activate(w)) == Activate(w)
  {
  }

  lemma DeactivateIdempotent(w: Waitlist)
    ensures Deactivate(Deactivate(w)) == Deactivate(w)
  {
  }

  /** Deactivating and then activating gives back an active waitlist with the
      same descriptors; for a waitlist that was active it is the same record. */
  lemma DeactivateThenActivate(w: Waitlist)
    ensures IsActive(Activate(Deactivate(w)))
    ensures SameDescriptors(Activate(Deactivate(w)), w)
    ensures IsActive(w) ==> Activate(Deactivate(w)) == w
  {
  }
}
