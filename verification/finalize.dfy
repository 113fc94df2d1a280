/** Ending an event: the participant list `EndEventButton` builds from the roster, the
    signup records it persists, the participants whose event roles it revokes, and the
    role-name rule of `assign_event_role`. */
module Finalize {
  import opened Wrappers
  import opened Roster

  /** The `role` column of a signup. */
  datatype RoleKind = CommanderRole | GunnerRole | DriverRole | RecruitRole

  /** The `signup_type` column of a signup. */
  datatype SignupKind = CrewSignup | RecruitSignup

  /** One `(user, team, role, crew_name)` tuple of the participant list. */
  datatype Participant = Participant(user: UserId, team: Option<Team>, role: RoleKind,
                                     crewName: Option<string>)

  /** One `INSERT OR REPLACE INTO signups` row. */
  datatype SignupRecord = SignupRecord(eventId: int, userId: UserId, kind: SignupKind,
                                       team: Option<Team>, role: RoleKind,
                                       crewName: Option<string>)

  /** `u` has an entry in `es`. */
  predicate Lists(es: seq<Participant>, u: UserId) {
    exists k :: 0 <= k < |es| && es[k].user == u
  }

  /** Every entry of `es` carries a team and a crew role. */
  predicate AllOnTeam(es: seq<Participant>) {
    forall k :: 0 <= k < |es| ==> es[k].team.Some? && es[k].role != RecruitRole
  }

  lemma ListsConcat(es: seq<Participant>, fs: seq<Participant>, u: UserId)
    ensures Lists(es + fs, u) <==> Lists(es, u) || Lists(fs, u)
  {
    if Lists(es, u) {
      var k :| 0 <= k < |es| && es[k].user == u;
      assert (es + fs)[k] == es[k];
    }
    if Lists(fs, u) {
      var k :| 0 <= k < |fs| && fs[k].user == u;
      assert (es + fs)[|es| + k] == fs[k];
    }
    if Lists(es + fs, u) {
      var k :| 0 <= k < |es + fs| && (es + fs)[k].user == u;
      if k >= |es| { assert fs[k - |es|] == (es + fs)[k]; } else { assert es[k] == (es + fs)[k]; }
    }
  }

  lemma ListsOne(p: Participant, u: UserId)
    ensures Lists([p], u) <==> p.user == u
  {
    if p.user == u { assert [p][0] == p; }
  }

  // ---------------------------------------------------------------------------------
  // The participant list

  /** Each set team commander, with the team and no crew name: team A's first. */
  function CommanderEntries(r: RosterState): (es: seq<Participant>)
    ensures |es| == (if r.commanderA.Some? then 1 else 0) + (if r.commanderB.Some? then 1 else 0)
    ensures r.commanderA.Some? ==> es[0] == Participant(r.commanderA.value, Some(A), CommanderRole, None)
    ensures r.commanderB.Some? ==> es[|es| - 1] == Participant(r.commanderB.value, Some(B), CommanderRole, None)
    ensures forall k :: 0 <= k < |es| ==>
              es[k].role == CommanderRole && es[k].crewName.None?
              && es[k].team.Some? && r.Commander(es[k].team.value) == Some(es[k].user)
  {
    var a := if r.commanderA.Some? then [Participant(r.commanderA.value, Some(A), CommanderRole, None)] else [];
    var b := if r.commanderB.Some? then [Participant(r.commanderB.value, Some(B), CommanderRole, None)] else [];
    a + b
  }

  /** The commander entries name exactly the two team commanders. */
  lemma CommanderEntriesList(r: RosterState, u: UserId)
    ensures Lists(CommanderEntries(r), u) <==> r.commanderA == Some(u) || r.commanderB == Some(u)
  {
    var a := if r.commanderA.Some? then [Participant(r.commanderA.value, Some(A), CommanderRole, None)] else [];
    var b := if r.commanderB.Some? then [Participant(r.commanderB.value, Some(B), CommanderRole, None)] else [];
    ListsConcat(a, b, u);
    if r.commanderA.Some? { ListsOne(a[0], u); }
    if r.commanderB.Some? { ListsOne(b[0], u); }
  }

  /** What one slot contributes: its commander, then its gunner and its driver only when
      they differ from the commander, all under the slot's team and crew name. */
  function SlotEntries(t: Team, s: Slot): (es: seq<Participant>)
    ensures s.None? ==> es == []
    ensures s.Some? ==> var c := s.value;
              && |es| == 1 + (if c.gunner != c.commander then 1 else 0) + (if c.driver != c.commander then 1 else 0)
              && es[0] == Participant(c.commander, Some(t), CommanderRole, Some(c.crewName))
              && (c.gunner != c.commander ==> es[1] == Participant(c.gunner, Some(t), GunnerRole, Some(c.crewName)))
              && (c.driver != c.commander ==> es[|es| - 1] == Participant(c.driver, Some(t), DriverRole, Some(c.crewName)))
    ensures forall k :: 0 <= k < |es| ==>
              s.Some? && es[k].team == Some(t) && es[k].role != RecruitRole
              && es[k].crewName == Some(s.value.crewName)
    ensures forall k :: 0 < k < |es| ==> s.Some? && es[k].user != s.value.commander
  {
    match s
    case None => []
    case Some(c) =>
      var name := Some(c.crewName);
      var g := if c.gunner != c.commander then [Participant(c.gunner, Some(t), GunnerRole, name)] else [];
      var d := if c.driver != c.commander then [Participant(c.driver, Some(t), DriverRole, name)] else [];
      [Participant(c.commander, Some(t), CommanderRole, name)] + g + d
  }

  /** A slot's entries name exactly the users holding a position in it: a position held
      by the commander is listed once, as the commander. */
  lemma SlotEntriesList(t: Team, s: Slot, u: UserId)
    ensures Lists(SlotEntries(t, s), u) <==> SlotHolds(s, u)
  {
    if s.Some? {
      var c := s.value;
      var name := Some(c.crewName);
      var first := [Participant(c.commander, Some(t), CommanderRole, name)];
      var g := if c.gunner != c.commander then [Participant(c.gunner, Some(t), GunnerRole, name)] else [];
      var d := if c.driver != c.commander then [Participant(c.driver, Some(t), DriverRole, name)] else [];
      assert SlotEntries(t, s) == first + g + d;
      ListsConcat(first + g, d, u);
      ListsConcat(first, g, u);
      ListsOne(first[0], u);
      if g != [] { ListsOne(g[0], u); }
      if d != [] { ListsOne(d[0], u); }
    }
  }

  /** The entries of the first `n` slots of one team, in ascending slot order. */
  function CrewEntriesTo(t: Team, s: seq<Slot>, n: nat): (es: seq<Participant>)
    requires n <= |s|
    ensures forall k :: 0 <= k < |es| ==> es[k].team == Some(t) && es[k].role != RecruitRole
  {
    if n == 0 then [] else CrewEntriesTo(t, s, n - 1) + SlotEntries(t, s[n - 1])
  }

  /** The entries of all slots of one team. */
  function CrewEntries(t: Team, s: seq<Slot>): seq<Participant> {
    CrewEntriesTo(t, s, |s|)
  }

  /** The entries of the first `n` slots name exactly the users holding a position in one
      of them. */
  lemma {:induction false} CrewEntriesList(t: Team, s: seq<Slot>, n: nat, u: UserId)
    requires n <= |s|
    ensures Lists(CrewEntriesTo(t, s, n), u) <==> exists i :: 0 <= i < n && SlotHolds(s[i], u)
  {
    if n > 0 {
      CrewEntriesList(t, s, n - 1, u);
      SlotEntriesList(t, s[n - 1], u);
      ListsConcat(CrewEntriesTo(t, s, n - 1), SlotEntries(t, s[n - 1]), u);
      if SlotHolds(s[n - 1], u) {
        assert exists i :: 0 <= i < n && SlotHolds(s[i], u);
      }
    }
  }

  /** Each recruit, in pool order, with no team, the recruit role and no crew name. */
  function RecruitEntries(rs: seq<UserId>): (es: seq<Participant>)
    ensures |es| == |rs|
    ensures forall k :: 0 <= k < |es| ==>
              es[k].user == rs[k] && es[k].team.None? && es[k].role == RecruitRole && es[k].crewName.None?
  {
    seq(|rs|, k requires 0 <= k < |rs| => Participant(rs[k], None, RecruitRole, None))
  }

  /** The recruit entries name exactly the recruits. */
  lemma RecruitEntriesList(rs: seq<UserId>, u: UserId)
    ensures Lists(RecruitEntries(rs), u) <==> u in rs
  {
    var es := RecruitEntries(rs);
    if u in rs {
      var k :| 0 <= k < |rs| && rs[k] == u;
      assert es[k].user == u;
    }
  }

  /** Extending the pool by one recruit extends the entries by one recruit entry. */
  lemma RecruitEntriesSnoc(rs: seq<UserId>, i: nat)
    requires i < |rs|
    ensures RecruitEntries(rs[..i + 1]) == RecruitEntries(rs[..i]) + [Participant(rs[i], None, RecruitRole, None)]
  {
    assert |RecruitEntries(rs[..i + 1])| == i + 1;
  }

  /** The participant list of `EndEventButton`: team commanders, then the crews of team A,
      then those of team B, then the recruits. */
  function Participants(r: RosterState): seq<Participant> {
    CommanderEntries(r) + CrewEntries(A, r.crewsA) + CrewEntries(B, r.crewsB)
    + RecruitEntries(r.recruits)
  }

  /** The entries with a team: everything but the recruits. */
  function TeamEntries(r: RosterState): (es: seq<Participant>)
    ensures AllOnTeam(es)
    ensures Participants(r) == es + RecruitEntries(r.recruits)
  {
    CommanderEntries(r) + CrewEntries(A, r.crewsA) + CrewEntries(B, r.crewsB)
  }

  /** `u` has a team entry exactly when `u` is a team commander or holds a position in an
      occupied slot. */
  lemma {:induction false} TeamEntriesList(r: RosterState, u: UserId)
    ensures Lists(TeamEntries(r), u) <==>
              || r.commanderA == Some(u) || r.commanderB == Some(u)
              || (exists i :: 0 <= i < |r.crewsA| && SlotHolds(r.crewsA[i], u))
              || (exists i :: 0 <= i < |r.crewsB| && SlotHolds(r.crewsB[i], u))
  {
    ListsConcat(CommanderEntries(r) + CrewEntries(A, r.crewsA), CrewEntries(B, r.crewsB), u);
    ListsConcat(CommanderEntries(r), CrewEntries(A, r.crewsA), u);
    CommanderEntriesList(r, u);
    CrewEntriesList(A, r.crewsA, |r.crewsA|, u);
    CrewEntriesList(B, r.crewsB, |r.crewsB|, u);
  }

  /** The participant list names exactly the registered users. */
  lemma {:induction false} ParticipantsAreRegistered(r: RosterState, u: UserId)
    ensures Lists(Participants(r), u) <==> Registered(r, u)
  {
    TeamEntriesList(r, u);
    RecruitEntriesList(r.recruits, u);
    ListsConcat(TeamEntries(r), RecruitEntries(r.recruits), u);
  }

  /** An entry has no team exactly when it is a recruit's, and there is one such entry per
      recruit. */
  lemma {:induction false} TeamlessEntriesAreRecruits(r: RosterState)
    ensures var ps := Participants(r);
            forall k :: 0 <= k < |ps| ==> (ps[k].team.None? <==> ps[k].role == RecruitRole)
    ensures |Participants(r)| == |TeamEntries(r)| + |r.recruits|
  {
    TeamlessConcat(TeamEntries(r), RecruitEntries(r.recruits));
  }

  lemma TeamlessConcat(ts: seq<Participant>, rs: seq<Participant>)
    requires AllOnTeam(ts)
    requires forall k :: 0 <= k < |rs| ==> rs[k].team.None? && rs[k].role == RecruitRole
    ensures forall k :: 0 <= k < |ts + rs| ==> ((ts + rs)[k].team.None? <==> (ts + rs)[k].role == RecruitRole)
  {
    forall k | 0 <= k < |ts + rs| ensures (ts + rs)[k].team.None? <==> (ts + rs)[k].role == RecruitRole {
      if k < |ts| { assert (ts + rs)[k] == ts[k]; } else { assert (ts + rs)[k] == rs[k - |ts|]; }
    }
  }

  // ---------------------------------------------------------------------------------
  // Persistence and role revocation

  /** The `signup_type` stored for a role: 'crew' unless the role is 'recruit'. */
  function SignupKindOf(role: RoleKind): (k: SignupKind)
    ensures k == RecruitSignup <==> role == RecruitRole
  {
    if role != RecruitRole then CrewSignup else RecruitSignup
  }

  /** The rows upserted for the participant list: one per participant, recruits included;
      none when the event has no id. */
  function SignupRecords(eventId: int, ps: seq<Participant>): (rs: seq<SignupRecord>)
    ensures eventId == 0 ==> rs == []
    ensures eventId != 0 ==> |rs| == |ps|
    ensures forall k :: 0 <= k < |rs| ==>
              && rs[k].eventId == eventId && rs[k].userId == ps[k].user
              && rs[k].team == ps[k].team && rs[k].role == ps[k].role && rs[k].crewName == ps[k].crewName
              && (rs[k].kind == RecruitSignup <==> ps[k].role == RecruitRole)
  {
    if eventId == 0 then []
    else seq(|ps|, k requires 0 <= k < |ps| =>
               SignupRecord(eventId, ps[k].user, SignupKindOf(ps[k].role), ps[k].team,
                            ps[k].role, ps[k].crewName))
  }

  /** For an event with an id, every registered user gets a signup row, and a row's kind
      is 'recruit' exactly when it has no team. */
  lemma {:induction false} SignupRecordsCoverRoster(eventId: int, r: RosterState, u: UserId)
    requires eventId != 0
    ensures var rs := SignupRecords(eventId, Participants(r));
            && (Registered(r, u) <==> exists k :: 0 <= k < |rs| && rs[k].userId == u)
            && forall k :: 0 <= k < |rs| ==> (rs[k].kind == RecruitSignup <==> rs[k].team.None?)
  {
    var ps := Participants(r);
    var rs := SignupRecords(eventId, ps);
    ParticipantsAreRegistered(r, u);
    TeamlessEntriesAreRecruits(r);
    if Registered(r, u) {
      var k :| 0 <= k < |ps| && ps[k].user == u;
      assert rs[k].userId == u;
    }
  }

  /** The users whose event roles are revoked: those of the entries with a team, in list
      order. */
  function RevocationTargets(ps: seq<Participant>): (us: seq<UserId>)
    ensures |us| <= |ps|
    ensures forall u :: u in us <==> exists k :: 0 <= k < |ps| && ps[k].user == u && ps[k].team.Some?
  {
    if ps == [] then []
    else
      var n := |ps| - 1;
      var front := RevocationTargets(ps[..n]);
      assert forall k :: 0 <= k < n ==> ps[..n][k] == ps[k];
      front + (if ps[n].team.Some? then [ps[n].user] else [])
  }

  lemma {:induction false} RevocationTargetsAppend(xs: seq<Participant>, ys: seq<Participant>)
    ensures RevocationTargets(xs + ys) == RevocationTargets(xs) + RevocationTargets(ys)
  {
    if ys == [] {
      assert xs + ys == xs;
    } else {
      var n := |ys| - 1;
      assert (xs + ys)[..|xs + ys| - 1] == xs + ys[..n];
      assert (xs + ys)[|xs + ys| - 1] == ys[n];
      RevocationTargetsAppend(xs, ys[..n]);
    }
  }

  lemma {:induction false} RevocationTargetsOfTeamEntries(es: seq<Participant>)
    requires AllOnTeam(es)
    ensures |RevocationTargets(es)| == |es|
  {
    if es != [] {
      RevocationTargetsOfTeamEntries(es[..|es| - 1]);
    }
  }

  lemma {:induction false} RevocationTargetsOfRecruits(rs: seq<UserId>)
    ensures RevocationTargets(RecruitEntries(rs)) == []
  {
    var es := RecruitEntries(rs);
    if rs != [] {
      var n := |rs| - 1;
      assert es[..n] == RecruitEntries(rs[..n]);
      RevocationTargetsOfRecruits(rs[..n]);
    }
  }

  /** One revocation is attempted per participant entry, minus one per recruit. */
  lemma {:induction false} RevocationCount(r: RosterState)
    ensures |RevocationTargets(Participants(r))| == |Participants(r)| - |r.recruits|
  {
    RevocationTargetsAppend(TeamEntries(r), RecruitEntries(r.recruits));
    RevocationTargetsOfTeamEntries(TeamEntries(r));
    RevocationTargetsOfRecruits(r.recruits);
    TeamlessEntriesAreRecruits(r);
  }

  /** On a roster that keeps the uniqueness invariant, roles are revoked from exactly the
      registered users outside the recruit pool. */
  lemma {:induction false} RevocationSparesRecruits(r: RosterState, u: UserId)
    requires Unique(r)
    ensures u in RevocationTargets(Participants(r)) <==> Registered(r, u) && u !in r.recruits
  {
    var ps := Participants(r);
    var ts := TeamEntries(r);
    TeamEntriesList(r, u);
    if u in RevocationTargets(ps) {
      var k :| 0 <= k < |ps| && ps[k].user == u && ps[k].team.Some?;
      assert ps[k] == ts[k];
      assert Lists(ts, u);
      SlotsHoldingZero(r.crewsA, u);
      SlotsHoldingZero(r.crewsB, u);
      assert Places(r, u) <= 1;
    }
    if Registered(r, u) && u !in r.recruits {
      assert Lists(ts, u);
      var k :| 0 <= k < |ts| && ts[k].user == u;
      assert ps[k] == ts[k];
    }
  }

  // ---------------------------------------------------------------------------------
  // Event role names

  /** The role `assign_event_role` grants: "<title> Allies" for team A, "<title> Axis" for
      team B, "<title> Participant" without a team. */
  function RoleName(title: string, team: Option<Team>): (name: string)
    ensures |name| > |title| && name[..|title|] == title
    ensures name in EventRoleNames(title)
  {
    match team
    case Some(A) => title + " Allies"
    case Some(B) => title + " Axis"
    case None => title + " Participant"
  }

  /** The roles `remove_event_role` looks for and removes. */
  function EventRoleNames(title: string): (ns: seq<string>)
    ensures |ns| == 3
    ensures forall k :: 0 <= k < |ns| ==> |ns[k]| > |title| + 1 && ns[k][..|title| + 1] == title + " "
    ensures forall k, l :: 0 <= k < l < |ns| ==> ns[k] != ns[l]
  {
    assert (title + " Allies")[..|title| + 1] == title + " ";
    assert (title + " Axis")[..|title| + 1] == title + " ";
    assert (title + " Participant")[..|title| + 1] == title + " ";
    [title + " Allies", title + " Axis", title + " Participant"]
  }

  /** The roles deleted from the server when the event ends: the two team roles and no
      other. The "Participant" role is not among them, so recruits keep theirs. */
  function TeamRoleNames(title: string): (ns: seq<string>)
    ensures |ns| == 2
    ensures forall t: Team :: RoleName(title, Some(t)) in ns
    ensures RoleName(title, None) !in ns
  {
    RoleNamesDistinct(title, None, Some(A));
    RoleNamesDistinct(title, None, Some(B));
    [RoleName(title, Some(A)), RoleName(title, Some(B))]
  }

  /** Different teams get different roles, so the role of a member tells their team. */
  lemma RoleNamesDistinct(title: string, t1: Option<Team>, t2: Option<Team>)
    ensures RoleName(title, t1) == RoleName(title, t2) <==> t1 == t2
  {
    if t1 != t2 {
      assert |RoleName(title, t1)| != |RoleName(title, t2)|;
    }
  }
}
