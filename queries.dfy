/**
 * The read side of `WaitlistService` (src/WaitlistService.php:103-175): every
 * query starts from the rows of one waitlist (`query()`), then filters by
 * status or e-mail, orders and counts. Each is a function of the rows of the
 * `waitlist_entries` table, in insertion order, and of the scoping waitlist id.
 */
module Queries {
  import opened Wrappers
  import opened Entries

  /** Strictly increasing creation times: the order in which rows are stored. */
  ghost predicate AscendingCreated(s: seq<Entry>) {
    forall i, j :: 0 <= i < j < |s| ==> s[i].createdAt < s[j].createdAt
  }

  ghost predicate DescendingCreated(s: seq<Entry>) {
    forall i, j :: 0 <= i < j < |s| ==> s[i].createdAt > s[j].createdAt
  }

  /** The sort key of `orderBy('invited_at', 'desc')`; a null time sorts last. */
  function InviteKey(e: Entry): int {
    match e.invitedAt
    case Some(t) => t
    case None => -1
  }

  ghost predicate DescendingInvite(s: seq<Entry>) {
    forall i, j :: 0 <= i < j < |s| ==> InviteKey(s[i]) >= InviteKey(s[j])
  }

  /** `WaitlistEntry::where('waitlist_id', $id)`: the rows of one waitlist. */
  function InScope(rows: seq<Entry>, wid: nat): (r: seq<Entry>)
    ensures forall e :: e in r <==> e in rows && e.waitlistId == wid
    ensures |r| <= |rows|
    ensures AscendingCreated(rows) ==> AscendingCreated(r)
  {
    if |rows| == 0 then []
    else if rows[0].waitlistId == wid then [rows[0]] + InScope(rows[1..], wid)
    else InScope(rows[1..], wid)
  }

  /** `where('status', ...)`. */
  function WithStatus(rows: seq<Entry>, st: Status): (r: seq<Entry>)
    ensures forall e :: e in r <==> e in rows && e.status == st
    ensures |r| <= |rows|
    ensures AscendingCreated(rows) ==> AscendingCreated(r)
  {
    if |rows| == 0 then []
    else if rows[0].status == st then [rows[0]] + WithStatus(rows[1..], st)
    else WithStatus(rows[1..], st)
  }

  function Reverse(s: seq<Entry>): (r: seq<Entry>)
    ensures |r| == |s|
    ensures forall k :: 0 <= k < |s| ==> r[k] == s[|s| - 1 - k]
  {
    if |s| == 0 then [] else Reverse(s[1..]) + [s[0]]
  }

  /** Inserts `e` into a list ordered newest invitation first. */
  function InsertByInvite(e: Entry, s: seq<Entry>): (r: seq<Entry>)
    ensures |r| == |s| + 1
    ensures multiset(r) == multiset(s) + multiset{e}
    ensures r[0] == e || (|s| > 0 && r[0] == s[0])
    ensures DescendingInvite(s) ==> DescendingInvite(r)
  {
    if |s| == 0 || InviteKey(e) >= InviteKey(s[0]) then
      ConsDescending(e, s);
      [e] + s
    else
      assert s == [s[0]] + s[1..];
      var rest := InsertByInvite(e, s[1..]);
      assert DescendingInvite(s) ==> InviteKey(s[0]) >= InviteKey(rest[0]);
      ConsDescending(s[0], rest);
      [s[0]] + rest
  }

  /** Putting a row whose key is at least the head's in front keeps the order. */
  lemma ConsDescending(x: Entry, s: seq<Entry>)
    ensures DescendingInvite(s) && (|s| > 0 ==> InviteKey(x) >= InviteKey(s[0])) ==> DescendingInvite([x] + s)
  {
    if !DescendingInvite(s) || (|s| > 0 && InviteKey(x) < InviteKey(s[0])) {
      return;
    }
    var r := [x] + s;
    forall i, j | 0 <= i < j < |r| ensures InviteKey(r[i]) >= InviteKey(r[j]) {
      if i == 0 {
        assert r[j] == s[j - 1];
      } else {
        assert r[i] == s[i - 1] && r[j] == s[j - 1];
      }
    }
  }

  /** `orderBy('invited_at', 'desc')`: a permutation, newest invitation first. */
  function SortByInviteDesc(s: seq<Entry>): (r: seq<Entry>)
    ensures |r| == |s|
    ensures multiset(r) == multiset(s)
    ensures DescendingInvite(r)
  {
    if |s| == 0 then []
    else
      assert s == [s[0]] + s[1..];
      InsertByInvite(s[0], SortByInviteDesc(s[1..]))
  }

  /** `getPending()`: the pending rows of the waitlist, oldest first. */
  function PendingOldestFirst(rows: seq<Entry>, wid: nat): (r: seq<Entry>)
    ensures forall e :: e in r <==> e in rows && e.waitlistId == wid && IsPending(e)
    ensures AscendingCreated(rows) ==> AscendingCreated(r)
  {
    WithStatus(InScope(rows, wid), Pending)
  }

  /** `getInvited()`: the invited rows of the waitlist, newest invitation first. */
  function InvitedNewestFirst(rows: seq<Entry>, wid: nat): (r: seq<Entry>)
    ensures forall e :: e in r <==> e in rows && e.waitlistId == wid && IsInvited(e)
    ensures |r| == |WithStatus(InScope(rows, wid), Invited)|
    ensures multiset(r) == multiset(WithStatus(InScope(rows, wid), Invited))
    ensures DescendingInvite(r)
  {
    var invited := WithStatus(InScope(rows, wid), Invited);
    var r := SortByInviteDesc(invited);
    assert forall e :: e in r <==> e in multiset(r);
    assert forall e :: e in invited <==> e in multiset(invited);
    r
  }

  /** `getAll()`: every row of the waitlist, newest first. */
  function AllNewestFirst(rows: seq<Entry>, wid: nat): (r: seq<Entry>)
    ensures forall e :: e in r <==> e in rows && e.waitlistId == wid
    ensures |r| == |InScope(rows, wid)|
    ensures AscendingCreated(rows) ==> DescendingCreated(r)
  {
    var scoped := InScope(rows, wid);
    var r := Reverse(scoped);
    assert forall e :: e in r ==> e in scoped;
    assert forall e :: e in scoped ==> e in r by {
      forall e | e in scoped ensures e in r {
        var k :| 0 <= k < |scoped| && scoped[k] == e;
        assert r[|scoped| - 1 - k] == e;
      }
    }
    r
  }

  /** `where('email', $email)->exists()` within one waitlist. */
  predicate HasEmail(rows: seq<Entry>, wid: nat, email: string) {
    exists i | 0 <= i < |rows| :: rows[i].waitlistId == wid && rows[i].email == email
  }

  /** `where('email', $email)->first()` within one waitlist. */
  function FirstByEmail(rows: seq<Entry>, wid: nat, email: string): (r: Option<Entry>)
    ensures r.Some? <==> HasEmail(rows, wid, email)
    ensures r.Some? ==> r.value in rows && r.value.waitlistId == wid && r.value.email == email
  {
    if |rows| == 0 then None
    else if rows[0].waitlistId == wid && rows[0].email == email then Some(rows[0])
    else
      var r := FirstByEmail(rows[1..], wid, email);
      assert HasEmail(rows, wid, email) ==> HasEmail(rows[1..], wid, email) by {
        if HasEmail(rows, wid, email) {
          var i :| 0 <= i < |rows| && rows[i].waitlistId == wid && rows[i].email == email;
          assert rows[1..][i - 1] == rows[i];
        }
      }
      r
  }

  /** `count()`. */
  function EntryCount(rows: seq<Entry>, wid: nat): (n: nat)
    ensures n == |AllNewestFirst(rows, wid)|
  {
    |InScope(rows, wid)|
  }

  /** `countPending()`. */
  function PendingCount(rows: seq<Entry>, wid: nat): (n: nat)
    ensures n == |PendingOldestFirst(rows, wid)|
  {
    |WithStatus(InScope(rows, wid), Pending)|
  }

  /** `countInvited()`. */
  function InvitedCount(rows: seq<Entry>, wid: nat): (n: nat)
    ensures n == |InvitedNewestFirst(rows, wid)|
  {
    |WithStatus(InScope(rows, wid), Invited)|
  }

  /** Every row has exactly one of the three statuses. */
  lemma {:induction false} StatusPartition(s: seq<Entry>)
    ensures |WithStatus(s, Pending)| + |WithStatus(s, Invited)| + |WithStatus(s, Rejected)| == |s|
  {
    if |s| > 0 {
      StatusPartition(s[1..]);
    }
  }

  /** Pending and invited rows together never outnumber all rows. */
  lemma CountsBounded(rows: seq<Entry>, wid: nat)
    ensures PendingCount(rows, wid) + InvitedCount(rows, wid) <= EntryCount(rows, wid)
  {
    StatusPartition(InScope(rows, wid));
  }

  /** Scoping distributes over concatenation of the table. */
  lemma {:induction false} InScopeConcat(a: seq<Entry>, b: seq<Entry>, wid: nat)
    ensures InScope(a + b, wid) == InScope(a, wid) + InScope(b, wid)
  {
    if |a| == 0 {
      assert a + b == b;
    } else {
      var ab := a + b;
      assert ab[0] == a[0] && ab[1..] == a[1..] + b;
      InScopeConcat(a[1..], b, wid);
      if a[0].waitlistId == wid {
        calc {
          InScope(ab, wid);
          [a[0]] + InScope(a[1..] + b, wid);
          [a[0]] + (InScope(a[1..], wid) + InScope(b, wid));
          ([a[0]] + InScope(a[1..], wid)) + InScope(b, wid);
        }
      }
    }
  }

  lemma {:induction false} WithStatusConcat(a: seq<Entry>, b: seq<Entry>, st: Status)
    ensures WithStatus(a + b, st) == WithStatus(a, st) + WithStatus(b, st)
  {
    if |a| == 0 {
      assert a + b == b;
    } else {
      var ab := a + b;
      assert ab[0] == a[0] && ab[1..] == a[1..] + b;
      WithStatusConcat(a[1..], b, st);
      if a[0].status == st {
        calc {
          WithStatus(ab, st);
          [a[0]] + WithStatus(a[1..] + b, st);
          [a[0]] + (WithStatus(a[1..], st) + WithStatus(b, st));
          ([a[0]] + WithStatus(a[1..], st)) + WithStatus(b, st);
        }
      }
    }
  }

  /** A row added to waitlist `wid` becomes its newest row and, when pending,
      the last of its pending rows; its count grows by exactly one. */
  lemma AppendToScope(rows: seq<Entry>, e: Entry, wid: nat)
    requires e.waitlistId == wid
    ensures InScope(rows + [e], wid) == InScope(rows, wid) + [e]
    ensures EntryCount(rows + [e], wid) == EntryCount(rows, wid) + 1
    ensures IsPending(e) ==> PendingOldestFirst(rows + [e], wid) == PendingOldestFirst(rows, wid) + [e]
    ensures AllNewestFirst(rows + [e], wid)[0] == e
  {
    InScopeConcat(rows, [e], wid);
    assert InScope([e], wid) == [e] by {
      assert [e][1..] == [];
    }
    WithStatusConcat(InScope(rows, wid), [e], Pending);
    if IsPending(e) {
      assert WithStatus([e], Pending) == [e] by {
        assert [e][1..] == [];
      }
    }
  }

  /** A row added to another waitlist changes none of `wid`'s results. */
  lemma AppendToOtherScope(rows: seq<Entry>, e: Entry, wid: nat, email: string)
    requires e.waitlistId != wid
    ensures InScope(rows + [e], wid) == InScope(rows, wid)
    ensures PendingOldestFirst(rows + [e], wid) == PendingOldestFirst(rows, wid)
    ensures InvitedNewestFirst(rows + [e], wid) == InvitedNewestFirst(rows, wid)
    ensures AllNewestFirst(rows + [e], wid) == AllNewestFirst(rows, wid)
    ensures FirstByEmail(rows + [e], wid, email) == FirstByEmail(rows, wid, email)
    ensures HasEmail(rows + [e], wid, email) == HasEmail(rows, wid, email)
  {
    InScopeConcat(rows, [e], wid);
    assert InScope([e], wid) == [] by {
      assert [e][1..] == [];
    }
    FirstByEmailAppendOther(rows, e, wid, email);
  }

  /** `getByEmail` for any e-mail ignores a row added to another waitlist. */
  lemma {:induction false} FirstByEmailAppendOther(rows: seq<Entry>, e: Entry, wid: nat, email: string)
    requires e.waitlistId != wid
    ensures FirstByEmail(rows + [e], wid, email) == FirstByEmail(rows, wid, email)
  {
    if |rows| > 0 {
      assert (rows + [e])[1..] == rows[1..] + [e];
      FirstByEmailAppendOther(rows[1..], e, wid, email);
    } else {
      assert [e][1..] == [];
    }
  }

  /** An entry of waitlist `a` never shows up in the results of waitlist `b`. */
  lemma ScopesIsolated(rows: seq<Entry>, a: nat, b: nat, e: Entry)
    requires a != b && e in AllNewestFirst(rows, a)
    ensures e !in AllNewestFirst(rows, b)
    ensures e !in PendingOldestFirst(rows, b) && e !in InvitedNewestFirst(rows, b)
  {
  }

  /** Rewriting rows without moving them between waitlists keeps every
      waitlist's count: status transitions never change `count()`. */
  lemma {:induction false} CountUnchangedByTransitions(rows: seq<Entry>, rows': seq<Entry>, wid: nat)
    requires |rows'| == |rows|
    requires forall i :: 0 <= i < |rows| ==> rows'[i].waitlistId == rows[i].waitlistId
    ensures EntryCount(rows', wid) == EntryCount(rows, wid)
  {
    if |rows| > 0 {
      CountUnchangedByTransitions(rows[1..], rows'[1..], wid);
    }
  }
}
