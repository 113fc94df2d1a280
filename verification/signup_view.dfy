/** `EventSignupView` and the callbacks that change its roster, each user action modelled
    as one atomic step. The roster lives in the view's fields: the two team commanders,
    one fixed-size array of crew slots per team and the recruit list. */
module SignupView {
  import opened Wrappers
  import opened Text
  import opened Roster
  import opened Finalize

  /** The named rejections the callbacks report. */
  datatype Error =
    | AlreadyRegistered                 // "Already registered!" / "User already registered!"
    | TeamFull                          // "Team is full!"
    | MemberAlreadyRegistered(member: UserId)
    | NotCommander                      // "You must be a crew commander ..."
    | NotProfileCommander               // "You must be a crew commander to join with your crew."
    | NoCrewSelected                    // the picked id matches none of the user's profiles
    | NoRecruits                        // "No recruits available to recruit."
    | RecruitNotFound                   // "Recruit not found!"
    | EmptyCrewName                     // "Crew name cannot be empty!"
    | NotRegistered                     // "Not registered!"
    | Unauthorized                      // "Only admins can end events."
    | EventEnded                        // the signup message's components are disabled
    | EditViewMiswired                  // the position select's parent view has no roster

  /** What ending the event produces: the participant list, the signup rows upserted, the
      users whose event roles are revoked and the team roles deleted from the server. */
  datatype EndSummary = EndSummary(participants: seq<Participant>, signups: seq<SignupRecord>,
                                   revoked: seq<UserId>, deletedRoles: seq<string>)

  /** The summary of ending an event whose participant list is `ps`. */
  function Summary(eventId: int, eventType: string, ps: seq<Participant>): EndSummary {
    EndSummary(ps, SignupRecords(eventId, ps), RevocationTargets(ps), TeamRoleNames(eventType))
  }

  /** What the gunner or driver select does to roster `r` when it reaches the crew-editing
      view: the first crew `commander` commands gets the selected user in position `pos`,
      or the commander back when nothing is selected; a selected user who is already
      registered is refused. Nothing but that one position changes. */
  function PositionEdit(r: RosterState, commander: UserId, pos: Position, selection: Option<UserId>)
    : (res: Result<RosterState, Error>)
    ensures UserCrew(r, commander).None? ==> res == Failure(NotCommander)
    ensures UserCrew(r, commander).Some? && selection.Some? && Registered(r, selection.value) ==>
              res == Failure(AlreadyRegistered)
    ensures res.Success? <==> UserCrew(r, commander).Some? && (selection.None? || !Registered(r, selection.value))
    ensures res.Success? ==> |res.value.crewsA| == |r.crewsA| && |res.value.crewsB| == |r.crewsB|
    ensures res.Success? ==>
              var ref := UserCrew(r, commander).value;
              var s := res.value.Crews(ref.team)[ref.index];
              var c := r.Crews(ref.team)[ref.index].value;
              && s.Some? && s.value.commander == commander
              && (if pos == Gunner then s.value.gunner else s.value.driver) == selection.GetOr(commander)
              && (if pos == Gunner then s.value.driver == c.driver else s.value.gunner == c.gunner)
              && s.value.crewName == c.crewName && s.value.persistentCrewId == c.persistentCrewId
    ensures res.Success? ==>
              var ref := UserCrew(r, commander).value;
              && res.value.commanderA == r.commanderA && res.value.commanderB == r.commanderB
              && res.value.recruits == r.recruits
              && (forall t: Team, j :: 0 <= j < |r.Crews(t)| && SlotRef(t, j) != ref ==>
                    res.value.Crews(t)[j] == r.Crews(t)[j])
  {
    match UserCrew(r, commander)
    case None => Failure(NotCommander)
    case Some(ref) =>
      var crew := r.Crews(ref.team)[ref.index].value;
      if selection.Some? && Registered(r, selection.value) then Failure(AlreadyRegistered)
      else Success(r.WithSlot(ref.team, ref.index, Some(crew.WithPosition(pos, selection.GetOr(commander)))))
  }

  /** The same select as the views are wired: the gunner and driver views hand the select
      themselves as its parent, and they keep neither the signup view nor the crew, so
      once the commander check of the edit button has passed, the callback fails before
      it writes anything. */
  function PositionEditAsWired(r: RosterState, commander: UserId, pos: Position, selection: Option<UserId>)
    : (res: Result<RosterState, Error>)
    ensures res.Failure?
    ensures res == Failure(NotCommander) <==> UserCrew(r, commander).None?
  {
    if UserCrew(r, commander).None? then Failure(NotCommander) else Failure(EditViewMiswired)
  }

  /** For every commander and every unregistered user they pick, the intended edit puts
      that user in the crew, while the select as wired leaves them unregistered. */
  lemma AsWiredEditDropsSelection(r: RosterState, commander: UserId, pos: Position, u: UserId)
    requires UserCrew(r, commander).Some? && !Registered(r, u)
    ensures PositionEditAsWired(r, commander, pos, Some(u)) == Failure(EditViewMiswired)
    ensures PositionEdit(r, commander, pos, Some(u)).Success?
    ensures Registered(PositionEdit(r, commander, pos, Some(u)).value, u)
  {
  }

  /** The inner loop of `is_user_registered` over one team's slots. */
  method AnySlotHolds(slots: array<Slot>, u: UserId) returns (found: bool)
    ensures found <==> exists i :: 0 <= i < slots.Length && SlotHolds(slots[i], u)
  {
    for i := 0 to slots.Length
      invariant forall j :: 0 <= j < i ==> !SlotHolds(slots[j], u)
    {
      if slots[i].Some? && slots[i].value.Holds(u) {
        return true;
      }
    }
    return false;
  }

  /** The inner loop of `get_user_crew` over one team's slots. */
  method FindCommandedSlot(slots: array<Slot>, u: UserId) returns (r: Option<nat>)
    ensures r == FirstCommanded(slots[..], u)
  {
    for i := 0 to slots.Length
      invariant forall j :: 0 <= j < i ==> !Commands(slots[j], u)
    {
      if slots[i].Some? && slots[i].value.commander == u {
        return Some(i);
      }
    }
    return None;
  }

  /** The participant-list loop over one team's slots: each crew gives its commander,
      then its gunner and its driver unless they are the commander. */
  method TeamCrewEntries(t: Team, slots: array<Slot>) returns (es: seq<Participant>)
    ensures es == CrewEntries(t, slots[..])
  {
    ghost var s := slots[..];
    es := [];
    for i := 0 to slots.Length
      invariant es == CrewEntriesTo(t, s, i)
    {
      if slots[i].Some? {
        var crew := slots[i].value;
        var entries := [Participant(crew.commander, Some(t), CommanderRole, Some(crew.crewName))];
        if crew.gunner != crew.commander {
          entries := entries + [Participant(crew.gunner, Some(t), GunnerRole, Some(crew.crewName))];
        }
        if crew.driver != crew.commander {
          entries := entries + [Participant(crew.driver, Some(t), DriverRole, Some(crew.crewName))];
        }
        assert entries == SlotEntries(t, s[i]);
        es := es + entries;
      }
    }
  }

  /** The participant-list loop over the recruit pool. */
  method PoolEntries(pool: seq<UserId>) returns (es: seq<Participant>)
    ensures es == RecruitEntries(pool)
  {
    es := [];
    for i := 0 to |pool|
      invariant es == RecruitEntries(pool[..i])
    {
      RecruitEntriesSnoc(pool, i);
      es := es + [Participant(pool[i], None, RecruitRole, None)];
    }
    assert pool[..|pool|] == pool;
  }

  /** The profile the join flow goes on with: the only one, or the dropdown's lookup of
      the picked id. */
  method PickProfile(cs: seq<CrewProfile>, pick: int) returns (sel: Option<CrewProfile>)
    ensures sel == SelectedProfile(cs, pick)
  {
    if |cs| == 1 {
      return Some(cs[0]);
    }
    for i := 0 to |cs|
      invariant forall j :: 0 <= j < i ==> cs[j].id != pick
    {
      if cs[i].id == pick {
        return Some(cs[i]);
      }
    }
    return None;
  }

  /** The slot loop of `LeaveEventButton.callback`: for each index, team A's slot and then
      team B's slot is emptied when `u` holds any position in it. */
  method ClearHoldingSlots(a: array<Slot>, b: array<Slot>, u: UserId) returns (hit: bool)
    requires a != b && a.Length == b.Length
    modifies a, b
    ensures a[..] == ClearHolding(old(a[..]), u) && b[..] == ClearHolding(old(b[..]), u)
    ensures hit <==> || (exists k :: 0 <= k < |old(a[..])| && SlotHolds(old(a[..])[k], u))
                     || (exists k :: 0 <= k < |old(b[..])| && SlotHolds(old(b[..])[k], u))
  {
    hit := false;
    for i := 0 to a.Length
      invariant forall k :: 0 <= k < i ==> a[k] == (if SlotHolds(old(a[k]), u) then None else old(a[k]))
      invariant forall k :: 0 <= k < i ==> b[k] == (if SlotHolds(old(b[k]), u) then None else old(b[k]))
      invariant forall k :: i <= k < a.Length ==> a[k] == old(a[k]) && b[k] == old(b[k])
      invariant hit <==> || (exists k :: 0 <= k < i && SlotHolds(old(a[k]), u))
                         || (exists k :: 0 <= k < i && SlotHolds(old(b[k]), u))
    {
      if a[i].Some? && a[i].value.Holds(u) {
        a[i] := None;
        hit := true;
      }
      if b[i].Some? && b[i].value.Holds(u) {
        b[i] := None;
        hit := true;
      }
    }
    assert a[..] == ClearHolding(old(a[..]), u);
    assert b[..] == ClearHolding(old(b[..]), u);
  }

  class EventSignupView {
    /** The `event_type` that the event's roles are named after. */
    const eventType: string
    /** The event's database id; 0 stands for "no id" (nothing is persisted). */
    const eventId: int
    /** `MAX_CREWS_PER_TEAM`. */
    const maxCrews: nat

    var commanderA: Option<UserId>
    var commanderB: Option<UserId>
    const crewsA: array<Slot>
    const crewsB: array<Slot>
    var recruits: seq<UserId>
    /** Set once the event is ended: the signup message's buttons and selects are disabled. */
    var ended: bool

    function Crews(t: Team): array<Slot>
      reads this
    {
      if t == A then crewsA else crewsB
    }

    /** The roster held by the view's fields. */
    ghost function View(): RosterState
      reads this, crewsA, crewsB
    {
      RosterState(commanderA, commanderB, crewsA[..], crewsB[..], recruits)
    }

    ghost predicate Valid()
      reads this, crewsA, crewsB
    {
      && crewsA != crewsB
      && crewsA.Length == maxCrews && crewsB.Length == maxCrews
      && Unique(View())
    }

    /** A new event: no commanders, every slot empty, no recruits. */
    constructor (eventType: string, eventId: int, maxCrews: nat)
      ensures Valid() && fresh(crewsA) && fresh(crewsB) && !ended
      ensures this.eventType == eventType && this.eventId == eventId && this.maxCrews == maxCrews
      ensures View() == EmptyRoster(maxCrews)
    {
      this.eventType := eventType;
      this.eventId := eventId;
      this.maxCrews := maxCrews;
      crewsA := new Slot[maxCrews](_ => None);
      crewsB := new Slot[maxCrews](_ => None);
      commanderA, commanderB := None, None;
      recruits := [];
      ended := false;
      new;
      assert View() == EmptyRoster(maxCrews);
      EmptyRosterUnique(maxCrews);
    }

    // -------------------------------------------------------------------------------
    // Queries

    /** `is_user_registered`. */
    method IsUserRegistered(u: UserId) returns (b: bool)
      ensures b == Registered(View(), u)
    {
      if Some(u) in [commanderA, commanderB] {
        return true;
      }
      var inA := AnySlotHolds(crewsA, u);
      if inA {
        return true;
      }
      var inB := AnySlotHolds(crewsB, u);
      if inB {
        return true;
      }
      return u in recruits;
    }

    /** `get_user_crew`: the team and index of the first slot `u` commands. */
    method GetUserCrew(u: UserId) returns (r: Option<SlotRef>)
      ensures r == UserCrew(View(), u)
    {
      var i := FindCommandedSlot(crewsA, u);
      if i.Some? {
        return Some(SlotRef(A, i.value));
      }
      i := FindCommandedSlot(crewsB, u);
      if i.Some? {
        return Some(SlotRef(B, i.value));
      }
      return None;
    }

    /** `is_user_commander`: `u` commands some crew; being a gunner or driver, or a team
        commander, does not count. */
    method IsUserCommander(u: UserId) returns (b: bool)
      ensures b <==> || (exists i :: 0 <= i < crewsA.Length && Commands(crewsA[i], u))
                     || (exists i :: 0 <= i < crewsB.Length && Commands(crewsB[i], u))
    {
      var r := GetUserCrew(u);
      b := r.Some?;
      if b {
        var t, i := r.value.team, r.value.index;
        assert Commands(Crews(t)[i], u);
      }
    }

    /** The recruit lookup of `RecruitSelect.callback`. */
    method SelectRecruit(id: UserId) returns (r: Result<UserId, Error>)
      ensures id in recruits ==> r == Success(id)
      ensures id !in recruits ==> r == Failure(RecruitNotFound)
    {
      for i := 0 to |recruits|
        invariant forall j :: 0 <= j < i ==> recruits[j] != id
      {
        if recruits[i] == id {
          return Success(recruits[i]);
        }
      }
      return Failure(RecruitNotFound);
    }

    /** The participant list of `EndEventButton.callback`. */
    method BuildParticipants() returns (ps: seq<Participant>)
      ensures ps == Participants(View())
    {
      var commanders := [];
      if commanderA.Some? {
        commanders := commanders + [Participant(commanderA.value, Some(A), CommanderRole, None)];
      }
      if commanderB.Some? {
        commanders := commanders + [Participant(commanderB.value, Some(B), CommanderRole, None)];
      }
      assert commanders == CommanderEntries(View());
      var teamA := TeamCrewEntries(A, crewsA);
      var teamB := TeamCrewEntries(B, crewsB);
      var pool := PoolEntries(recruits);
      ps := commanders + teamA + teamB + pool;
    }

    // -------------------------------------------------------------------------------
    // Registration

    /** `CommanderSelect.callback`: an unregistered user becomes the commander of `team`,
        replacing whoever held it. */
    method SelectCommander(u: UserId, team: Team) returns (r: Outcome<Error>)
      requires Valid()
      modifies this
      ensures Valid() && ended == old(ended)
      ensures old(ended) ==> r == Fail(EventEnded) && View() == old(View())
      ensures !old(ended) && Registered(old(View()), u) ==>
                r == Fail(AlreadyRegistered) && View() == old(View())
      ensures !old(ended) && !Registered(old(View()), u) ==>
                r == Pass && View() == old(View()).WithCommander(team, Some(u))
    {
      if ended {
        return Fail(EventEnded);
      }
      var registered := IsUserRegistered(u);
      if registered {
        return Fail(AlreadyRegistered);
      }
      SetCommanderKeepsUnique(View(), team, u);
      if team == A {
        commanderA := Some(u);
      } else {
        commanderB := Some(u);
      }
      return Pass;
    }

    /** `RecruitMeButton.callback`: an unregistered user joins the end of the pool. */
    method RecruitMe(u: UserId) returns (r: Outcome<Error>)
      requires Valid()
      modifies this
      ensures Valid() && ended == old(ended)
      ensures old(ended) ==> r == Fail(EventEnded) && View() == old(View())
      ensures !old(ended) && Registered(old(View()), u) ==>
                r == Fail(AlreadyRegistered) && View() == old(View())
      ensures !old(ended) && !Registered(old(View()), u) ==>
                r == Pass && View() == old(View()).WithRecruits(old(recruits) + [u])
    {
      if ended {
        return Fail(EventEnded);
      }
      var registered := IsUserRegistered(u);
      if registered {
        return Fail(AlreadyRegistered);
      }
      AddRecruitKeepsUnique(View(), u);
      recruits := recruits + [u];
      return Pass;
    }

    // -------------------------------------------------------------------------------
    // Crew slots

    /** The first-fit loop shared by crew creation and persistent-crew joins: the crew goes
        into the lowest-indexed empty slot of team `t`, if there is one. */
    method Allocate(t: Team, crew: Crew) returns (slot: Option<nat>)
      requires Valid()
      requires forall w :: crew.Holds(w) ==> !Registered(View(), w)
      modifies Crews(t)
      ensures Valid()
      ensures slot == FirstEmpty(old(View()).Crews(t))
      ensures slot.None? ==> View() == old(View())
      ensures slot.Some? ==> View() == old(View()).WithSlot(t, slot.value, Some(crew))
    {
      var slots := Crews(t);
      for i := 0 to slots.Length
        invariant forall j :: 0 <= j < i ==> slots[j].Some?
        invariant View() == old(View())
      {
        if slots[i].None? {
          SlotChangeKeepsUnique(View(), t, i, Some(crew));
          slots[i] := Some(crew);
          return Some(i);
        }
      }
      return None;
    }

    /** `CrewNameModal.on_submit`, the commit of the crew-creation flow. The flow checked
        that the commander, the gunner and the driver were unregistered when each was
        picked; the commit does not check again, so those checks are preconditions here. */
    method CreateCrew(team: Team, commander: UserId, commanderName: string,
                      gunner: UserId, driver: UserId, nameInput: string)
      returns (r: Result<nat, Error>)
      requires Valid()
      requires !Registered(View(), commander)
      requires !Registered(View(), gunner) && !Registered(View(), driver)
      modifies crewsA, crewsB
      ensures Valid()
      ensures old(ended) ==> r == Failure(EventEnded) && View() == old(View())
      ensures !old(ended) ==>
                var crew := Crew(commander, CrewNameOrDefault(nameInput, commanderName), gunner, driver, None);
                match FirstEmpty(old(View()).Crews(team))
                case None => r == Failure(TeamFull) && View() == old(View())
                case Some(i) => r == Success(i) && View() == old(View()).WithSlot(team, i, Some(crew))
    {
      if ended {
        return Failure(EventEnded);
      }
      var name := CrewNameOrDefault(nameInput, commanderName);
      var slot := Allocate(team, Crew(commander, name, gunner, driver, None));
      if slot.None? {
        return Failure(TeamFull);
      }
      return Success(slot.value);
    }

    /** The member check loop: the first of `ms` that is registered. */
    method FirstRegisteredMember(ms: seq<UserId>) returns (m: Option<UserId>)
      ensures m == FirstRegistered(View(), ms)
    {
      for k := 0 to |ms|
        invariant forall j :: 0 <= j < k ==> !Registered(View(), ms[j])
      {
        var registered := IsUserRegistered(ms[k]);
        if registered {
          assert FirstRegistered(View(), ms) == Some(ms[k]);
          return Some(ms[k]);
        }
      }
      return None;
    }

    /** The pre-check of `JoinWithCrewButton.callback`: the members of every profile the
        user commands, profile by profile. */
    method FirstProfileConflict(cs: seq<CrewProfile>) returns (m: Option<UserId>)
      ensures m == FirstConflict(View(), cs)
    {
      assert cs[0..] == cs;
      for i := 0 to |cs|
        invariant FirstConflict(View(), cs) == FirstConflict(View(), cs[i..])
      {
        var hit := FirstRegisteredMember(ProfileMembers(cs[i]));
        assert cs[i..][0] == cs[i];
        if hit.Some? {
          return hit;
        }
        assert cs[i..][1..] == cs[i + 1..];
      }
      return None;
    }

    /** `JoinWithCrewButton` and what follows it: the user must be unregistered and command
        at least one saved profile, and no member of any of those profiles may be
        registered. The user then goes on with their only profile, or with the one picked
        from the dropdown, and `join_with_crew` commits it to `team`. */
    method JoinWithMyCrew(u: UserId, profiles: seq<CrewProfile>, pick: int, team: Team)
      returns (r: Result<nat, Error>)
      requires Valid()
      modifies crewsA, crewsB
      ensures Valid()
      ensures r.Failure? ==> View() == old(View())
      ensures old(ended) ==> r == Failure(EventEnded)
      ensures !old(ended) ==>
                var cs := CommanderProfiles(profiles, u);
                if Registered(old(View()), u) then r == Failure(AlreadyRegistered)
                else if cs == [] then r == Failure(NotProfileCommander)
                else match FirstConflict(old(View()), cs)
                  case Some(m) => r == Failure(MemberAlreadyRegistered(m))
                  case None =>
                    match SelectedProfile(cs, pick)
                    case None => r == Failure(NoCrewSelected)
                    case Some(p) =>
                      match FirstEmpty(old(View()).Crews(team))
                      case None => r == Failure(TeamFull)
                      case Some(i) => r == Success(i)
                                      && View() == old(View()).WithSlot(team, i, Some(ProfileCrew(p)))
    {
      if ended {
        return Failure(EventEnded);
      }
      var registered := IsUserRegistered(u);
      if registered {
        return Failure(AlreadyRegistered);
      }
      var cs := CommanderProfiles(profiles, u);
      if cs == [] {
        return Failure(NotProfileCommander);
      }
      var conflict := FirstProfileConflict(cs);
      if conflict.Some? {
        return Failure(MemberAlreadyRegistered(conflict.value));
      }
      var selected := PickProfile(cs, pick);
      if selected.None? {
        return Failure(NoCrewSelected);
      }
      PreCheckCoversCommit(View(), cs, selected.value);
      r := JoinWithCrew(selected.value, team);
    }

    /** `join_with_crew` (for either team): a persistent crew profile is copied into the
        lowest-indexed empty slot, unless one of its three members is registered. */
    method JoinWithCrew(profile: CrewProfile, team: Team) returns (r: Result<nat, Error>)
      requires Valid()
      modifies crewsA, crewsB
      ensures Valid()
      ensures old(ended) ==> r == Failure(EventEnded) && View() == old(View())
      ensures !old(ended) ==>
                match FirstRegistered(old(View()), ProfileMembers(profile))
                case Some(m) => r == Failure(MemberAlreadyRegistered(m)) && View() == old(View())
                case None =>
                  match FirstEmpty(old(View()).Crews(team))
                  case None => r == Failure(TeamFull) && View() == old(View())
                  case Some(i) => r == Success(i)
                                  && View() == old(View()).WithSlot(team, i, Some(ProfileCrew(profile)))
    {
      if ended {
        return Failure(EventEnded);
      }
      var conflict := FirstRegisteredMember(ProfileMembers(profile));
      if conflict.Some? {
        return Failure(MemberAlreadyRegistered(conflict.value));
      }
      var slot := Allocate(team, ProfileCrew(profile));
      if slot.None? {
        return Failure(TeamFull);
      }
      return Success(slot.value);
    }

    // -------------------------------------------------------------------------------
    // Editing a crew

    /** The recruiting flow: `RecruitPlayersButton` (only crew commanders, only with a
        non-empty pool), `RecruitSelect` (the recruit must still be in the pool) and
        `AssignGunnerButton` / `AssignDriverButton`, which overwrite that position of the
        commander's crew and remove the recruit from the pool. */
    method AssignRecruit(commander: UserId, recruit: UserId, pos: Position) returns (r: Outcome<Error>)
      requires Valid()
      modifies this, crewsA, crewsB
      ensures Valid() && ended == old(ended)
      ensures r.Fail? ==> View() == old(View())
      ensures old(ended) ==> r == Fail(EventEnded)
      ensures !old(ended) ==>
                match UserCrew(old(View()), commander)
                case None => r == Fail(NotCommander)
                case Some(ref) =>
                  if old(recruits) == [] then r == Fail(NoRecruits)
                  else if recruit !in old(recruits) then r == Fail(RecruitNotFound)
                  else
                    var crew := old(View()).Crews(ref.team)[ref.index].value;
                    && r == Pass
                    && View() == old(View()).WithSlot(ref.team, ref.index, Some(crew.WithPosition(pos, recruit)))
                                            .WithRecruits(RemoveFirst(old(recruits), recruit))
    {
      if ended {
        return Fail(EventEnded);
      }
      var ref := GetUserCrew(commander);
      if ref.None? {
        return Fail(NotCommander);
      }
      if recruits == [] {
        return Fail(NoRecruits);
      }
      var selected := SelectRecruit(recruit);
      if selected.Failure? {
        return Fail(RecruitNotFound);
      }
      var slots := Crews(ref.value.team);
      var i := ref.value.index;
      RecruitMoveKeepsUnique(View(), ref.value.team, i, pos, recruit);
      slots[i] := Some(slots[i].value.WithPosition(pos, selected.value));
      recruits := RemoveFirst(recruits, selected.value);
      return Pass;
    }

    /** `UpdateGunnerSelect.callback` / `UpdateDriverSelect.callback`, reached through
        `EditCrewButton`: a selected user must be unregistered (so the crew's own
        commander is refused), and an empty selection gives the position back to the
        commander. */
    method UpdatePosition(commander: UserId, pos: Position, selection: Option<UserId>)
      returns (r: Outcome<Error>)
      requires Valid()
      modifies crewsA, crewsB
      ensures Valid()
      ensures r.Fail? ==> View() == old(View())
      ensures old(ended) ==> r == Fail(EventEnded)
      ensures !old(ended) ==>
                match PositionEdit(old(View()), commander, pos, selection)
                case Failure(e) => r == Fail(e)
                case Success(edited) => r == Pass && View() == edited
      ensures !old(ended) && selection == Some(commander) ==> r.Fail?
    {
      if ended {
        return Fail(EventEnded);
      }
      var ref := GetUserCrew(commander);
      if ref.None? {
        return Fail(NotCommander);
      }
      var slots := Crews(ref.value.team);
      var i := ref.value.index;
      var crew := slots[i].value;
      var holder := crew.commander;
      if selection.Some? {
        var registered := IsUserRegistered(selection.value);
        if registered {
          return Fail(AlreadyRegistered);
        }
        holder := selection.value;
      }
      SlotChangeKeepsUnique(View(), ref.value.team, i, Some(crew.WithPosition(pos, holder)));
      slots[i] := Some(crew.WithPosition(pos, holder));
      return Pass;
    }

    /** `EditCrewNameModal.on_submit`: the stripped input replaces the crew name of the
        commander's crew, unless it is empty. */
    method EditCrewName(commander: UserId, input: string) returns (r: Outcome<Error>)
      requires Valid()
      modifies crewsA, crewsB
      ensures Valid()
      ensures r.Fail? ==> View() == old(View())
      ensures old(ended) ==> r == Fail(EventEnded)
      ensures !old(ended) ==>
                match UserCrew(old(View()), commander)
                case None => r == Fail(NotCommander)
                case Some(ref) =>
                  if AllSpace(input) then r == Fail(EmptyCrewName)
                  else
                    var crew := old(View()).Crews(ref.team)[ref.index].value;
                    && r == Pass
                    && View() == old(View()).WithSlot(ref.team, ref.index, Some(crew.(crewName := Strip(input))))
    {
      if ended {
        return Fail(EventEnded);
      }
      var ref := GetUserCrew(commander);
      if ref.None? {
        return Fail(NotCommander);
      }
      var newName := Strip(input);
      if newName == [] {
        return Fail(EmptyCrewName);
      }
      var slots := Crews(ref.value.team);
      var i := ref.value.index;
      var crew := slots[i].value;
      SlotChangeKeepsUnique(View(), ref.value.team, i, Some(crew.(crewName := newName)));
      slots[i] := Some(crew.(crewName := newName));
      return Pass;
    }

    // -------------------------------------------------------------------------------
    // Leaving and ending

    /** The removals of `LeaveEventButton.callback`, in its order: the team commander (A, or
        else B), then every slot in which `u` holds a position, then the pool entry. */
    method RemoveEverywhere(u: UserId) returns (removed: bool)
      requires crewsA != crewsB && crewsA.Length == maxCrews && crewsB.Length == maxCrews
      modifies this, crewsA, crewsB
      ensures ended == old(ended)
      ensures View() == AfterLeave(old(View()), u)
      ensures removed == Registered(old(View()), u)
    {
      var fromCommand := false;
      if commanderA == Some(u) {
        commanderA := None;
        fromCommand := true;
      } else if commanderB == Some(u) {
        commanderB := None;
        fromCommand := true;
      }
      var fromSlots := ClearHoldingSlots(crewsA, crewsB, u);
      var fromPool := u in recruits;
      if fromPool {
        recruits := RemoveFirst(recruits, u);
      }
      removed := fromCommand || fromSlots || fromPool;
    }

    /** `LeaveEventButton.callback`: `u` leaves every place they hold; a slot in which
        they hold any position is emptied as a whole. */
    method LeaveEvent(u: UserId) returns (r: Outcome<Error>)
      requires Valid()
      modifies this, crewsA, crewsB
      ensures Valid() && ended == old(ended)
      ensures r.Fail? ==> View() == old(View())
      ensures old(ended) ==> r == Fail(EventEnded)
      ensures !old(ended) ==>
                && View() == AfterLeave(old(View()), u)
                && (r == Pass <==> Registered(old(View()), u))
                && (r.Fail? ==> r == Fail(NotRegistered))
                && !Registered(View(), u)
    {
      if ended {
        return Fail(EventEnded);
      }
      ghost var before := View();
      LeaveKeepsUnique(before, u);
      var removed := RemoveEverywhere(u);
      if removed {
        return Pass;
      }
      LeaveUnregisteredIsNoOp(before, u);
      return Fail(NotRegistered);
    }

    /** `EndEventButton.callback`: an administrator ends the event. The roster is kept as it
        is; every participant gets a signup row (when the event has an id), every
        participant with a team has their event roles revoked, and the signup components
        are disabled. */
    method EndEvent(isAdmin: bool) returns (r: Result<EndSummary, Error>)
      requires Valid()
      modifies this
      ensures Valid() && View() == old(View())
      ensures ended == (old(ended) || isAdmin)
      ensures r == if old(ended) then Failure(EventEnded)
                   else if !isAdmin then Failure(Unauthorized)
                   else Success(Summary(eventId, eventType, Participants(old(View()))))
    {
      if ended {
        return Failure(EventEnded);
      }
      if !isAdmin {
        return Failure(Unauthorized);
      }
      var ps := BuildParticipants();
      r := Success(Summary(eventId, eventType, ps));
      ended := true;
    }
  }
}
