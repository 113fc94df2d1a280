# Armor event roster, modelled in Dafny

This project models the roster engine of the armor-event signup message in
`cogs/armor_events.py`. An event's `EventSignupView` keeps:

- an optional commander for each team (A is Allies, B is Axis);
- one fixed-size array of crew slots per team, each slot empty or holding a crew
  (commander, gunner, driver, crew name, optional persistent-crew id);
- the recruit pool, which players join without a team.

Players act through buttons and selects:

- become a team commander;
- create a crew: commander, then gunner, then driver, then a name;
- join with a saved crew profile;
- join the recruit pool;
- recruit a pool member into their crew;
- change their crew's gunner or driver. As the views are wired, this select fails before
  it changes anything (see Findings);
- leave.

An administrator ends the event. This builds the participant list, upserts one signup
row per participant, revokes event roles from everyone with a team, deletes the two
team roles and disables the message's components.

The files:

- `wrappers.dfy`: `Option`, `Result` and `Outcome`.
- `text.dfy`: Python's `str.strip()` with no argument, and `str.isspace()`.
- `roster.dfy`: the roster as a value (`RosterState`). It holds:
  - the registration query, the crew lookup and the first-fit slot choice;
  - crew-profile copying and the pool removal;
  - the uniqueness invariant: nobody sits in more than one of commander A, commander B,
    a crew slot or the recruit pool;
  - one lemma per kind of change showing that it keeps the invariant.
- `finalize.dfy`: the participant list, the signup rows, the revocation targets and the
  event role names.
- `signup_view.dfy`: `class EventSignupView`. Its fields are the roster: two commander
  fields, two `array<Slot>` and the recruit sequence. Each user action is one method that
  updates those fields in place. Each method is specified against `View()`, the roster
  value its fields hold, and keeps `Valid()`. `Valid()` is the uniqueness invariant plus
  the array shapes.

Each user action is modelled as one atomic step that starts from the signup message.
Once the event is ended, every such step answers `EventEnded`, which stands for the
disabled components.

Some behaviours of the code a reader may not expect; the model follows the code as written:

- Signup rows are written for every participant, recruits included, with
  `signup_type` 'recruit'. Nothing is written when the event has no id.
- Becoming a commander does not check whether the team already has one. An unregistered
  user replaces the current team commander, who drops off the roster.
- A crew's gunner and driver may be the same player.
- Assigning a recruit over a gunner or driver who held no other position of the crew
  drops that player off the roster (`Roster.RecruitMoveDropsDisplaced`).
- Leaving empties every slot in which the leaver holds any position. The leaver's
  crewmates drop off the roster with that slot (`Roster.LeaveDropsCrewmates`).
- Recruits never have event roles revoked, and the "Participant" role is not deleted
  when the event ends.
- The gunner and driver selects reached from "Edit Crew" never change the roster. Their
  parent views keep neither the signup view nor the crew (see Findings).

## Model

| member | source | states |
|---|---|---|
| Text.Strip | cogs/armor_events.py:1172 | `strip()`: the result is no longer than the input and neither starts nor ends with whitespace; it is empty exactly when the input is all whitespace |
| Text.StripIsInfix | cogs/armor_events.py:1095 | what `strip()` keeps is a contiguous infix of the input, and everything it drops on either side is whitespace |
| Roster.FirstCommanded | cogs/armor_events.py:462-468 | the scan of one team finds the lowest-indexed slot commanded by the user; `None` exactly when no slot of that team is commanded by them; gunners and drivers are never found |
| Roster.UserCrew | cogs/armor_events.py:462-468 | `get_user_crew`: the result is a slot the user commands, the first in team A if any, else the first in team B; `None` exactly when the user commands no slot in either team |
| Roster.FirstEmpty | cogs/armor_events.py:768-779 | first-fit: the chosen slot is empty and every lower slot is occupied; `None` (team full) exactly when every slot is occupied |
| Roster.ReleasedSlotIsReused | cogs/armor_events.py:1179-1201 | after a slot is emptied, the next allocation takes that slot if every lower slot is occupied |
| Roster.CrewNameOrDefault | cogs/armor_events.py:1172 | a new crew's name is never empty: it is "<commander>'s Crew" when the input is all whitespace, else the stripped input, which has no whitespace at either end |
| Roster.ProfileCrew | cogs/armor_events.py:754-756 | the crew copied from a profile keeps its commander and name and records the profile id; an unset gunner or driver becomes the commander |
| Roster.ProfileMembers | cogs/armor_events.py:759-765 | the members are checked in the order commander, gunner, driver (an unset gunner or driver standing for the commander), and they are exactly the players the copied crew holds |
| Roster.FirstRegistered | cogs/armor_events.py:759-765 | the conflict reported is the first member in check order who is registered, with every earlier member unregistered; `None` exactly when no member is registered |
| Roster.CommandedPositions | cogs/armor_events.py:560-561 | the positions of the user's profiles in the store, strictly ascending, each commanded by the user, with none missing |
| Roster.CommanderProfiles | cogs/armor_events.py:560-561 | the list comprehension keeps the store's profiles the user commands, in store order and with their multiplicity: profile k of the result is the store's profile at `CommandedPositions` k. A profile is kept exactly when it is in the store and commanded by the user |
| Roster.FirstConflict | cogs/armor_events.py:571-581 | the member reported is registered and belongs to one of the profiles. It is the first registered member of the first profile whose member check fails, and every earlier profile passes. Nothing is reported exactly when every profile's member check passes. The button skips an unset gunner or driver id where `ProfileMembers` puts the commander, who is checked first, so the member reported is the same |
| Roster.PreCheckCoversCommit | cogs/armor_events.py:571-581 | once the pre-check passes, the commit's member check cannot fail for any profile it covered: none of the copied crew's players is registered |
| Roster.SelectedProfile | cogs/armor_events.py:583-593 | the profile gone on with is one of the user's: the only one, or else the first whose id was picked; nothing when no profile has the picked id |
| Roster.ProfileWithId | cogs/armor_events.py:719-722 | the dropdown lookup finds the first profile with the picked id, and nothing exactly when none has it |
| Roster.RemoveFirst | cogs/armor_events.py:952 | `recruits.remove(x)`: removes the first occurrence of `x` and keeps the order of the rest; as a multiset, exactly one `x` fewer. Python raises `ValueError` when `x` is absent; the model leaves the pool unchanged then, a case no caller reaches (the recruit lookup and the leave check both guard it) |
| Roster.Registered | cogs/armor_events.py:452-460 | `is_user_registered`: a team commander, a holder of any position of an occupied slot of either team, or a pool member (the reference definition the other members are stated against) |
| Roster.RegisteredIffPlaced | cogs/armor_events.py:452-460 | `is_user_registered` holds exactly when the user sits in at least one place of the roster |
| Roster.EmptyRoster | cogs/armor_events.py:392-396 | a new event has no commanders, `n` empty slots per team and an empty pool |
| Roster.Crew.WithPosition | cogs/armor_events.py:939-975 | writing a gunner or driver changes only that position; the commander, the name and the profile id stay |
| Roster.EmptyRosterUnique | cogs/armor_events.py:392-396 | a new event's roster satisfies uniqueness and nobody is registered on it |
| Roster.SetCommanderKeepsUnique | cogs/armor_events.py:490-507 | making an unregistered user a team commander keeps uniqueness and registers them |
| Roster.AddRecruitKeepsUnique | cogs/armor_events.py:600-612 | appending an unregistered user to the pool keeps uniqueness, and the user appears in the pool exactly once |
| Roster.SlotChangeKeepsUnique | cogs/armor_events.py:1179-1186 | writing a slot keeps uniqueness when everyone it newly holds was unregistered |
| Roster.RecruitMoveKeepsUnique | cogs/armor_events.py:939-959 | moving a recruit from the pool into a position of a crew keeps uniqueness |
| Roster.RecruitMoveDropsDisplaced | cogs/armor_events.py:944 | a player overwritten by the recruit who holds no other position of that crew is no longer registered afterwards |
| Roster.ClearHolding | cogs/armor_events.py:665-675 | the leave loop keeps the number of slots, empties exactly the slots in which the leaver holds a position, and leaves the others as they were |
| Roster.AfterLeave | cogs/armor_events.py:656-679 | the roster after a leave: commander A cleared if it is the user, else commander B if it is; every slot holding the user emptied; the user's first pool entry removed (the reference definition the leave lemmas and methods are stated against) |
| Roster.LeaveUnregisteredIsNoOp | cogs/armor_events.py:689-690 | leaving changes nothing for an unregistered user |
| Roster.LeaveLowersPlaces | cogs/armor_events.py:656-679 | leaving never gives anyone an extra place |
| Roster.LeaveClearsLeaver | cogs/armor_events.py:656-679 | a leaver who sat in at most one place sits in none afterwards |
| Roster.LeaveKeepsUnique | cogs/armor_events.py:652-690 | leaving keeps uniqueness, unregisters the leaver, and registers nobody who was not registered before |
| Roster.ClearHoldingDropsCrewmate | cogs/armor_events.py:665-675 | clearing the leaver's slots takes away a slot from each player who shared one with the leaver |
| Roster.LeaveDropsCrewmates | cogs/armor_events.py:665-675 | on a unique roster, anyone who shared a slot with the leaver is unregistered after the leave |
| Finalize.CommanderEntries | cogs/armor_events.py:1224-1227 | one entry per set team commander, team A's first; each has the commander role, its team and no crew name |
| Finalize.CommanderEntriesList | cogs/armor_events.py:1224-1227 | the commander entries name exactly the two team commanders |
| Finalize.SlotEntries | cogs/armor_events.py:1232-1237 | an empty slot gives nothing; an occupied slot gives its commander entry, then a 'gunner' entry when the gunner is not the commander, then a 'driver' entry when the driver is not the commander (so a gunner who is also the driver is listed twice), all under its team and crew name |
| Finalize.SlotEntriesList | cogs/armor_events.py:1230-1237 | a slot's entries name exactly the players holding a position in it |
| Finalize.CrewEntriesTo | cogs/armor_events.py:1230-1237 | every crew entry of a team carries that team and a crew role |
| Finalize.CrewEntriesList | cogs/armor_events.py:1230-1237 | the entries of a team's first `n` slots name exactly the players holding a position in one of those slots |
| Finalize.RecruitEntries | cogs/armor_events.py:1240-1241 | one entry per recruit, in pool order, with no team, the recruit role and no crew name |
| Finalize.RecruitEntriesList | cogs/armor_events.py:1240-1241 | the recruit entries name exactly the pool members |
| Finalize.RecruitEntriesSnoc | cogs/armor_events.py:1240-1241 | one more recruit in the pool gives one more entry, at the end |
| Finalize.Participants | cogs/armor_events.py:1221-1241 | the participant list: commander entries, team A's crew entries, team B's crew entries, recruit entries (the reference definition the end-of-event members are stated against) |
| Finalize.TeamEntries | cogs/armor_events.py:1221-1241 | the entries with a team all carry a team and a crew role, and the participant list is them followed by the recruit entries |
| Finalize.TeamEntriesList | cogs/armor_events.py:1221-1237 | a player has a team entry exactly when they are a team commander or hold a position in an occupied slot |
| Finalize.ParticipantsAreRegistered | cogs/armor_events.py:1221-1241 | the participant list names exactly the registered players (`is_user_registered`) |
| Finalize.TeamlessEntriesAreRecruits | cogs/armor_events.py:1221-1241 | an entry has no team exactly when it is a recruit's; the list has one recruit entry per pool member |
| Finalize.SignupRecords | cogs/armor_events.py:1243-1262 | no rows without an event id; otherwise one row per participant carrying its user, team, role and crew name; the kind is 'recruit' exactly for the recruit role |
| Finalize.SignupKindOf | cogs/armor_events.py:1258 | the signup type is 'recruit' exactly for the recruit role, else 'crew' |
| Finalize.SignupRecordsCoverRoster | cogs/armor_events.py:1243-1262 | for an event with an id, a player gets a row exactly when registered, and a row is of kind 'recruit' exactly when it has no team |
| Finalize.RevocationTargets | cogs/armor_events.py:1272-1278 | roles are revoked from exactly the players with a team entry, never more players than entries |
| Finalize.RevocationTargetsAppend | cogs/armor_events.py:1274-1278 | the revocation loop over two lists in a row revokes for the first list, then the second |
| Finalize.RevocationTargetsOfTeamEntries | cogs/armor_events.py:1275 | every entry with a team leads to one revocation |
| Finalize.RevocationTargetsOfRecruits | cogs/armor_events.py:1275 | recruit entries lead to no revocation |
| Finalize.RevocationCount | cogs/armor_events.py:1272-1278 | the number of revocation calls equals the number of participant entries minus the number of recruits |
| Finalize.RevocationSparesRecruits | cogs/armor_events.py:1272-1278 | on a unique roster, roles are revoked from exactly the registered players outside the pool |
| Finalize.RoleName | cogs/armor_events.py:235-252 | a granted role's name starts with the event type, is longer than it, and is one of the names `remove_event_role` looks for |
| Finalize.EventRoleNames | cogs/armor_events.py:290-294 | the roles looked for on removal are three distinct names, each the event type followed by a space |
| Finalize.TeamRoleNames | cogs/armor_events.py:1306-1314 | ending the event deletes exactly the two team roles, and not the "Participant" role |
| Finalize.RoleNamesDistinct | cogs/armor_events.py:235-252 | two players get the same event role exactly when they are on the same team (or both teamless) |
| SignupView.AnySlotHolds | cogs/armor_events.py:456-459 | true exactly when some slot of the team holds the user in any position |
| SignupView.FindCommandedSlot | cogs/armor_events.py:464-467 | the loop agrees with `Roster.FirstCommanded` on the array's contents |
| SignupView.TeamCrewEntries | cogs/armor_events.py:1230-1237 | the loop over a team's array builds exactly that team's crew entries |
| SignupView.PoolEntries | cogs/armor_events.py:1240-1241 | the loop over the pool builds exactly the recruit entries |
| SignupView.ClearHoldingSlots | cogs/armor_events.py:665-675 | both arrays become their `ClearHolding` images, and the result reports whether any slot held the user |
| SignupView.EventSignupView.constructor | cogs/armor_events.py:382-396 | a new view has an empty roster of the given size, satisfies the invariant and is not ended |
| SignupView.EventSignupView.IsUserRegistered | cogs/armor_events.py:452-460 | the answer is `Registered` of the current roster |
| SignupView.EventSignupView.GetUserCrew | cogs/armor_events.py:462-468 | the answer is `UserCrew` of the current roster |
| SignupView.EventSignupView.IsUserCommander | cogs/armor_events.py:470-473 | true exactly when the user commands some crew in either team |
| SignupView.EventSignupView.SelectRecruit | cogs/armor_events.py:905-915 | finds the recruit exactly when they are in the pool, else `RecruitNotFound` |
| SignupView.EventSignupView.BuildParticipants | cogs/armor_events.py:1221-1241 | the list built from the fields is `Participants` of the current roster |
| SignupView.EventSignupView.SelectCommander | cogs/armor_events.py:490-507 | a registered user is refused and nothing changes; otherwise the user becomes the team commander; uniqueness is kept |
| SignupView.EventSignupView.RecruitMe | cogs/armor_events.py:600-612 | a registered user is refused; otherwise the user is appended to the pool; uniqueness is kept |
| SignupView.EventSignupView.Allocate | cogs/armor_events.py:1179-1201 | the crew goes into `FirstEmpty` of the team and nothing else changes; with no empty slot nothing changes |
| SignupView.EventSignupView.CreateCrew | cogs/armor_events.py:1171-1204 | the crew, named by `CrewNameOrDefault`, takes the first empty slot of its team; "Team is full" leaves the roster unchanged |
| SignupView.PickProfile | cogs/armor_events.py:715-724 | the loop returns `SelectedProfile` of the user's profiles and the picked id |
| SignupView.EventSignupView.FirstRegisteredMember | cogs/armor_events.py:759-765 | the check loop returns `FirstRegistered` of the current roster |
| SignupView.EventSignupView.FirstProfileConflict | cogs/armor_events.py:571-581 | the pre-check loop returns `FirstConflict` of the current roster |
| SignupView.EventSignupView.JoinWithMyCrew | cogs/armor_events.py:549-593 | a registered user, a user commanding no profile, a registered member of any of their profiles and an unmatched pick are refused in that order with nothing changed; otherwise the picked profile's crew takes the first empty slot, or "Team is full" |
| SignupView.EventSignupView.JoinWithCrew | cogs/armor_events.py:748-802 | the first registered profile member is reported and nothing changes; otherwise the profile's crew takes the first empty slot, or "Team is full" |
| SignupView.EventSignupView.AssignRecruit | cogs/armor_events.py:939-959 | a non-commander, an empty pool and an absent recruit are refused in that order; otherwise the position is overwritten and the recruit leaves the pool |
| SignupView.PositionEdit | cogs/armor_events.py:1028-1047 | the intended select handler: a non-commander is refused, then a registered selection. On success, the commander's first crew holds the selection in that position, or the commander when nothing is selected. The crew keeps its commander, name, profile id and other position; every other slot, both commanders and the pool are unchanged |
| SignupView.PositionEditAsWired | cogs/armor_events.py:1017-1031 | the select as wired: after the edit button's commander check it always fails, so nothing changes |
| SignupView.AsWiredEditDropsSelection | cogs/armor_events.py:1017-1047 | for any commander and any unregistered pick, the intended edit succeeds and registers the pick, while the wired select fails |
| SignupView.EventSignupView.UpdatePosition | cogs/armor_events.py:1028-1047 | the result and the new roster are `PositionEdit` of the old roster, and uniqueness is kept; selecting the crew's own commander is refused |
| SignupView.EventSignupView.EditCrewName | cogs/armor_events.py:1094-1102 | an all-whitespace name is refused; otherwise the commander's crew is renamed to the stripped input and nothing else changes |
| SignupView.EventSignupView.RemoveEverywhere | cogs/armor_events.py:656-679 | the fields become `AfterLeave` of the old roster, and the result is whether the user was registered |
| SignupView.EventSignupView.LeaveEvent | cogs/armor_events.py:652-690 | succeeds exactly when the user was registered, else "Not registered"; afterwards the user is unregistered and uniqueness is kept |
| SignupView.EventSignupView.EndEvent | cogs/armor_events.py:1211-1321 | a non-admin is refused and the event stays open; otherwise the event is ended with the participant list, rows, revocations and deleted roles of the unchanged roster |

## Findings

| source | as written | input that shows it | evidently intended | confidence | as-written member | corrected member |
|---|---|---|---|---|---|---|
| cogs/armor_events.py:1017-1031 | `EditGunnerView` and `EditDriverView` (:1017-1021, :1049-1053) keep only `parent` and hand themselves to the select. The select's callback then reads `view_parent.main_view` (:1031, :1063) or `view_parent.crew` (:1044, :1076), which those views lack, so it raises before it writes | a crew commander presses "Edit Crew", then "Change Gunner", and picks any unregistered player, or picks nobody | the select reaches the crew-editing view and writes the position | not executed | SignupView.PositionEditAsWired, SignupView.AsWiredEditDropsSelection | SignupView.PositionEdit, SignupView.EventSignupView.UpdatePosition |

## Left out

- SignupView.EventSignupView.UpdatePosition: models what the gunner and driver selects
  would do if they reached the crew-editing view. As the source wires them they fail
  before changing anything (see Findings).

- Discord itself is not modelled: embeds, ephemeral replies, message edits and the
  message reference. Players are their ids, and a display name is a string parameter.
- Granting and revoking roles is not modelled; only the players and role names involved
  are. Role creation, its failure and the success count `role_removal_count` are left out.
- Deleting the event category and its channels is not modelled; it is independent
  of the roster.
- SQLite is not modelled. The upserts are the list of rows `Finalize.SignupRecords`,
  and the per-row errors and the event status update are left out. The event id's
  absence is the value 0.
- Administrator rights are a boolean input to `EndEvent`.
- The armor cog and the crew-management cog are assumed present.
- The model does not cover `guild.get_member` returning nothing for a profile member.
- Interleaved callbacks are not modelled. In the source, a sub-view opened before
  another player's change or before the event ended can still commit afterwards.
  The model takes each flow as one atomic step from the signup message.
- SignupView.EventSignupView.CreateCrew: the registration checks done when the
  commander, gunner and driver are picked are preconditions, because the commit does not
  repeat them.
- The saved profiles a user has are a parameter of `JoinWithMyCrew`; the
  crew-management store and its "not available" reply are not part of this model.
  Only the dropdown's lookup of the picked id is modelled, not its 25-option cut.
- The 30-character limit on the name inputs and the 25-option limit on selects are
  Discord-side limits and are left out.
- `MAX_CREWS_PER_TEAM` comes from configuration; it is the constructor's `maxCrews`.
- The `EditCrewNameModal` is never opened by the source, so no button leads to
  `EditCrewName`. The method models what its submit handler would do.
- Event creation, presets, map votes and the event time are outside the roster engine.
