/**
 * Steps of the feature tests (tests/Feature/WaitlistTest.php) replayed
 * against the contracts of `Store`. Each method starts from a concrete state
 * and its postcondition states what the test expects to observe.
 */
module Scenarios {
  import opened Wrappers
  import opened Waitlists
  import opened Entries
  import opened Tables
  import opened Service

  const BetaRow := Waitlist(1, "Beta", "beta", None, true, None)
  const LaunchRow := Waitlist(2, "Launch", "launch", None, true, None)
  /** Ann's entry on the beta waitlist, created at time 0. */
  const AnnOnBeta := Entry(1, 1, "Ann", "ann@x.com", Pending, None, map[], 0)

  /** A fresh service in which "beta" was created: it gets the first id. */
  method BetaOnly(autoSend: bool) returns (s: Store)
    ensures fresh(s) && s.Valid()
    ensures s.waitlists == WaitlistTable([BetaRow], 2)
    ensures s.entries == EntryTable([], 1) && s.clock == 0 && s.current == None
    ensures s.config == Config("default", autoSend) && s.outbox == []
  {
    s := new Store(Config("default", autoSend));
    var _ := s.Create("Beta", "beta");
  }

  /** Creating "launch" next gives it the next id; creating "beta" again is
      refused. */
  method ThenLaunch(s: Store) returns (launch: Result<Waitlist, Error>, again: Result<Waitlist, Error>)
    requires s.Valid() && s.waitlists == WaitlistTable([BetaRow], 2)
    modifies s
    ensures launch == Ok(LaunchRow) && again == Err(DuplicateSlug)
    ensures s.waitlists == WaitlistTable([BetaRow, LaunchRow], 3)
  {
    assert !HasSlug([BetaRow], "launch") by { assert "beta" != "launch"; }
    launch := s.Create("Launch", "launch");
    assert HasSlug(s.waitlists.rows, "beta") by { assert s.waitlists.rows[0] == BetaRow; }
    again := s.Create("Beta again", "beta");
  }

  /** Adding to the beta waitlist stores a pending entry in it. */
  method JoinBeta(s: Store) returns (r: Result<Entry, Error>)
    requires s.Valid()
    requires s.waitlists == WaitlistTable([BetaRow, LaunchRow], 3)
    requires s.entries == EntryTable([], 1) && s.clock == 0
    modifies s
    ensures r == Ok(AnnOnBeta)
    ensures s.entries == EntryTable([AnnOnBeta], 2)
  {
    var _ := s.For(BySlug("beta"));
    assert FindBySlug(s.waitlists.rows, "beta") == Some(BetaRow);
    r := s.Add("Ann", "ann@x.com");
  }

  /** The same e-mail may join a second waitlist. */
  method SameEmailOtherWaitlist(s: Store) returns (r: Result<Entry, Error>)
    requires s.Valid()
    requires s.waitlists == WaitlistTable([BetaRow, LaunchRow], 3)
    requires s.entries == EntryTable([AnnOnBeta], 2) && s.clock == 1
    modifies s
    ensures r == Ok(Entry(2, 2, "Ann", "ann@x.com", Pending, None, map[], 1))
  {
    var _ := s.For(BySlug("launch"));
    assert FindBySlug(s.waitlists.rows, "launch") == Some(LaunchRow) by { assert "beta" != "launch"; }
    assert !Queries.HasEmail([AnnOnBeta], 2, "ann@x.com");
    r := s.Add("Ann", "ann@x.com");
  }

  /** The same e-mail is refused a second time on the same waitlist, and
      nothing is stored. */
  method SameEmailSameWaitlist(s: Store) returns (r: Result<Entry, Error>)
    requires s.Valid()
    requires s.waitlists == WaitlistTable([BetaRow, LaunchRow], 3)
    requires s.entries == EntryTable([AnnOnBeta], 2) && s.current == Some(1)
    modifies s
    ensures r == Err(DuplicateEntry) && s.entries == EntryTable([AnnOnBeta], 2)
  {
    assert [AnnOnBeta][0] == AnnOnBeta;
    assert Queries.HasEmail([AnnOnBeta], 1, "ann@x.com");
    r := s.Add("Ann", "ann@x.com");
  }

  /** With `auto_send_invitation` on, inviting sends exactly one notice. */
  method InviteSendsOneNotice(s: Store) returns (r: Result<Entry, Error>)
    requires s.Valid()
    requires s.entries == EntryTable([AnnOnBeta], 2) && s.clock == 1
    requires s.config.autoSendInvitation && s.outbox == []
    modifies s
    ensures r.Ok? && r.value.status == Invited && r.value.invitedAt == Some(1)
    ensures s.outbox == [InvitationNotice(1, "ann@x.com")]
  {
    r := s.Invite(EntryId(1));
  }

  /** With `auto_send_invitation` off, inviting sends nothing. */
  method InviteWithoutSending(s: Store) returns (r: Result<Entry, Error>)
    requires s.Valid()
    requires s.entries == EntryTable([AnnOnBeta], 2)
    requires !s.config.autoSendInvitation && s.outbox == []
    modifies s
    ensures r.Ok? && r.value.status == Invited && s.outbox == []
  {
    r := s.Invite(EntryId(1));
  }

  /** An unknown entry id fails and changes nothing. */
  method InviteUnknown(s: Store) returns (r: Result<Entry, Error>)
    requires s.Valid()
    requires s.entries == EntryTable([AnnOnBeta], 2)
    modifies s
    ensures r == Err(NotFound) && s.entries == old(s.entries) && s.outbox == old(s.outbox)
  {
    r := s.Invite(EntryId(7));
  }

  /** `getDefault()` creates the default waitlist once; a second call finds it. */
  method DefaultCreatedOnce(s: Store) returns (first: Waitlist, second: Waitlist)
    requires s.Valid()
    requires s.waitlists == WaitlistTable([BetaRow, LaunchRow], 3) && s.config.defaultSlug == "default"
    modifies s
    ensures first == second == DefaultWaitlist(3, "default")
    ensures |s.waitlists.rows| == 3
  {
    assert !HasSlug([BetaRow, LaunchRow], "default");
    first := s.GetDefault();
    second := s.GetDefault();
  }

  /** Each waitlist counts only its own entries. */
  method CountsPerWaitlist(s: Store) returns (betaCount: nat, launchPending: nat)
    requires s.Valid()
    requires s.waitlists == WaitlistTable([BetaRow, LaunchRow], 3) && s.current == Some(1)
    requires s.entries == EntryTable([AnnOnBeta, Entry(2, 2, "Ann", "ann@x.com", Pending, None, map[], 1)], 3)
    modifies s
    ensures betaCount == 1 && launchPending == 1
  {
    var ann2 := Entry(2, 2, "Ann", "ann@x.com", Pending, None, map[], 1);
    assert Queries.InScope([AnnOnBeta, ann2], 1) == [AnnOnBeta];
    assert Queries.InScope([AnnOnBeta, ann2], 2) == [ann2];
    assert Queries.WithStatus([ann2], Pending) == [ann2];
    betaCount := s.Count();
    var _ := s.For(ById(2));
    assert FindWaitlistById([BetaRow, LaunchRow], 2) == Some(LaunchRow);
    launchPending := s.CountPending();
  }
}
