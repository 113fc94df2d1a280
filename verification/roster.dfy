/** The roster of one event as a value: two team commanders, two fixed-length arrays of
    crew slots and the recruit pool, with the registration query, the crew lookup, the
    first-fit slot choice and the uniqueness invariant that every callback keeps. */
module Roster {
  import opened Wrappers
  import opened Text

  /** A Discord member, identified by its id. */
  type UserId = int

  /** "A" is the Allies side, "B" the Axis side. */
  datatype Team = A | B

  /** The two crew positions a commander can fill or edit. */
  datatype Position = Gunner | Driver

  /** A crew record `{commander, crew_name, gunner, driver, persistent_crew_id?}`. */
  datatype Crew = Crew(commander: UserId, crewName: string, gunner: UserId, driver: UserId,
                       persistentCrewId: Option<int>)
  {
    /** `u` is the crew's commander, gunner or driver. */
    predicate Holds(u: UserId) {
      u == commander || u == gunner || u == driver
    }

    function WithPosition(p: Position, u: UserId): (c: Crew)
      ensures c.commander == commander && c.crewName == crewName
      ensures c.persistentCrewId == persistentCrewId
      ensures c.gunner == (if p == Gunner then u else gunner)
      ensures c.driver == (if p == Driver then u else driver)
    {
      match p
      case Gunner => this.(gunner := u)
      case Driver => this.(driver := u)
    }
  }

  /** One element of `crews_a` or `crews_b`: empty (`None`) or a crew. */
  type Slot = Option<Crew>

  predicate SlotHolds(s: Slot, u: UserId) {
    s.Some? && s.value.Holds(u)
  }

  predicate Commands(s: Slot, u: UserId) {
    s.Some? && s.value.commander == u
  }

  /** The team and index of one crew slot. */
  datatype SlotRef = SlotRef(team: Team, index: nat)

  /** The roster fields of `EventSignupView`. */
  datatype RosterState = RosterState(commanderA: Option<UserId>, commanderB: Option<UserId>,
                                     crewsA: seq<Slot>, crewsB: seq<Slot>,
                                     recruits: seq<UserId>)
  {
    function Commander(t: Team): Option<UserId> {
      if t == A then commanderA else commanderB
    }

    function Crews(t: Team): seq<Slot> {
      if t == A then crewsA else crewsB
    }

    function WithCommander(t: Team, c: Option<UserId>): RosterState {
      if t == A then this.(commanderA := c) else this.(commanderB := c)
    }

    function WithSlot(t: Team, i: nat, s: Slot): RosterState
      requires i < |Crews(t)|
    {
      if t == A then this.(crewsA := crewsA[i := s]) else this.(crewsB := crewsB[i := s])
    }

    function WithRecruits(rs: seq<UserId>): RosterState {
      this.(recruits := rs)
    }
  }

  /** The roster of a freshly created event: no commanders, `n` empty slots per team and
      no recruits. */
  function EmptyRoster(n: nat): (r: RosterState)
    ensures r.commanderA.None? && r.commanderB.None? && r.recruits == []
    ensures |r.crewsA| == n && |r.crewsB| == n
    ensures forall i :: 0 <= i < n ==> r.crewsA[i].None? && r.crewsB[i].None?
  {
    RosterState(None, None, seq(n, _ => None), seq(n, _ => None), [])
  }

  // ---------------------------------------------------------------------------------
  // Registration query and crew lookup

  /** `is_user_registered`: `u` is a team commander, holds any position of an occupied
      slot of either team, or is in the recruit pool. */
  predicate Registered(r: RosterState, u: UserId) {
    || r.commanderA == Some(u) || r.commanderB == Some(u)
    || (exists i :: 0 <= i < |r.crewsA| && SlotHolds(r.crewsA[i], u))
    || (exists i :: 0 <= i < |r.crewsB| && SlotHolds(r.crewsB[i], u))
    || u in r.recruits
  }

  /** The lowest index of a slot of `s` commanded by `u`. Gunners and drivers are never
      found. */
  function FirstCommanded(s: seq<Slot>, u: UserId): (r: Option<nat>)
    ensures r.Some? ==> r.value < |s| && Commands(s[r.value], u)
                        && forall j :: 0 <= j < r.value ==> !Commands(s[j], u)
    ensures r.None? <==> forall j :: 0 <= j < |s| ==> !Commands(s[j], u)
  {
    if s == [] then None
    else if Commands(s[0], u) then Some(0)
    else match FirstCommanded(s[1..], u)
      case None => None
      case Some(j) => Some(j + 1)
  }

  /** `get_user_crew`: the first slot commanded by `u`, scanning team A before team B and
      each team in ascending index; `None` when `u` commands no crew. */
  function UserCrew(r: RosterState, u: UserId): (ref: Option<SlotRef>)
    ensures ref.Some? ==> ref.value.index < |r.Crews(ref.value.team)|
                          && Commands(r.Crews(ref.value.team)[ref.value.index], u)
    ensures ref.Some? && ref.value.team == B ==> forall j :: 0 <= j < |r.crewsA| ==> !Commands(r.crewsA[j], u)
    ensures ref.Some? ==> forall j :: 0 <= j < ref.value.index ==> !Commands(r.Crews(ref.value.team)[j], u)
    ensures ref.None? <==> (forall j :: 0 <= j < |r.crewsA| ==> !Commands(r.crewsA[j], u))
                           && (forall j :: 0 <= j < |r.crewsB| ==> !Commands(r.crewsB[j], u))
  {
    match FirstCommanded(r.crewsA, u)
    case Some(i) => Some(SlotRef(A, i))
    case None =>
      match FirstCommanded(r.crewsB, u)
      case Some(i) => Some(SlotRef(B, i))
      case None => None
  }

  /** The slot a new crew goes into: the lowest-indexed empty one, `None` when the team
      is full. */
  function FirstEmpty(s: seq<Slot>): (r: Option<nat>)
    ensures r.Some? ==> r.value < |s| && s[r.value].None?
                        && forall j :: 0 <= j < r.value ==> s[j].Some?
    ensures r.None? <==> forall j :: 0 <= j < |s| ==> s[j].Some?
  {
    if s == [] then None
    else if s[0].None? then Some(0)
    else match FirstEmpty(s[1..])
      case None => None
      case Some(j) => Some(j + 1)
  }

  /** Releasing a slot and allocating again returns the lowest empty index, so a released
      slot is reused before any higher empty one. */
  lemma {:induction false} ReleasedSlotIsReused(s: seq<Slot>, k: nat)
    requires k < |s|
    requires forall j :: 0 <= j < k ==> s[j].Some?
    ensures FirstEmpty(s[k := None]) == Some(k)
  {
    var s' := s[k := None];
    assert forall j :: 0 <= j < k ==> s'[j].Some?;
    assert s'[k].None?;
  }

  // ---------------------------------------------------------------------------------
  // Crew names and persistent crew profiles

  /** The name a new crew gets: the stripped input, or "<commander>'s Crew" when the
      stripped input is empty. */
  function CrewNameOrDefault(input: string, commanderName: string): (name: string)
    ensures name != []
    ensures AllSpace(input) ==> name == commanderName + "'s Crew"
    ensures !AllSpace(input) ==> name == Strip(input) && !IsSpace(name[0]) && !IsSpace(name[|name| - 1])
  {
    var stripped := Strip(input);
    if stripped == [] then commanderName + "'s Crew" else stripped
  }

  /** A persistent crew profile, as the crew-management store hands it over. */
  datatype CrewProfile = CrewProfile(id: int, crewName: string, commanderId: UserId,
                                     gunnerId: Option<UserId>, driverId: Option<UserId>)

  /** The crew record a profile is copied into: an unset gunner or driver defaults to the
      profile's commander, and the record remembers the profile's id. */
  function ProfileCrew(p: CrewProfile): (c: Crew)
    ensures c.commander == p.commanderId && c.crewName == p.crewName
    ensures c.persistentCrewId == Some(p.id)
    ensures c.gunner == (if p.gunnerId.Some? then p.gunnerId.value else p.commanderId)
    ensures c.driver == (if p.driverId.Some? then p.driverId.value else p.commanderId)
  {
    Crew(p.commanderId, p.crewName, p.gunnerId.GetOr(p.commanderId),
         p.driverId.GetOr(p.commanderId), Some(p.id))
  }

  /** The three members checked before a profile joins, in the order they are checked:
      commander, gunner, driver. */
  function ProfileMembers(p: CrewProfile): (ms: seq<UserId>)
    ensures |ms| == 3
    ensures ms[0] == p.commanderId && ms[1] == ProfileCrew(p).gunner && ms[2] == ProfileCrew(p).driver
    ensures forall u :: u in ms <==> ProfileCrew(p).Holds(u)
  {
    var c := ProfileCrew(p);
    [c.commander, c.gunner, c.driver]
  }

  /** The first of `ms` that is already registered, if any. */
  function FirstRegistered(r: RosterState, ms: seq<UserId>): (m: Option<UserId>)
    ensures m.Some? ==> exists k :: 0 <= k < |ms| && ms[k] == m.value && Registered(r, ms[k])
                                    && forall j :: 0 <= j < k ==> !Registered(r, ms[j])
    ensures m.None? <==> forall k :: 0 <= k < |ms| ==> !Registered(r, ms[k])
  {
    if ms == [] then None
    else if Registered(r, ms[0]) then Some(ms[0])
    else
      var rest := FirstRegistered(r, ms[1..]);
      assert rest.Some? ==> exists k :: 1 <= k < |ms| && ms[k] == rest.value && Registered(r, ms[k])
                                       && forall j :: 0 <= j < k ==> !Registered(r, ms[j]) by {
        if rest.Some? {
          var k' :| 0 <= k' < |ms[1..]| && ms[1..][k'] == rest.value && Registered(r, ms[1..][k'])
                    && forall j :: 0 <= j < k' ==> !Registered(r, ms[1..][j]);
          assert ms[k' + 1] == ms[1..][k'];
          forall j | 0 <= j < k' + 1 ensures !Registered(r, ms[j]) {
            if j > 0 { assert ms[j] == ms[1..][j - 1]; }
          }
        }
      }
      rest
  }

  /** The positions of the saved profiles `u` commands, in ascending order: every such
      position appears, and no other. */
  function CommandedPositions(ps: seq<CrewProfile>, u: UserId): (idx: seq<nat>)
    ensures forall k :: 0 <= k < |idx| ==> idx[k] < |ps| && ps[idx[k]].commanderId == u
    ensures forall k, l :: 0 <= k < l < |idx| ==> idx[k] < idx[l]
    ensures forall j :: 0 <= j < |ps| && ps[j].commanderId == u ==> j in idx
  {
    if ps == [] then []
    else
      var n := |ps| - 1;
      var front := CommandedPositions(ps[..n], u);
      assert forall j :: 0 <= j < n ==> ps[..n][j] == ps[j];
      front + (if ps[n].commanderId == u then [n] else [])
  }

  /** The saved profiles `u` commands, in the store's order: the profiles at the
      positions `CommandedPositions` picks out, one for each. */
  function CommanderProfiles(ps: seq<CrewProfile>, u: UserId): (cs: seq<CrewProfile>)
    ensures |cs| <= |ps|
    ensures forall p :: p in cs <==> p in ps && p.commanderId == u
    ensures forall k :: 0 <= k < |cs| ==> cs[k].commanderId == u
    ensures |cs| == |CommandedPositions(ps, u)|
    ensures forall k :: 0 <= k < |cs| ==> cs[k] == ps[CommandedPositions(ps, u)[k]]
  {
    if ps == [] then []
    else
      var n := |ps| - 1;
      var front := CommanderProfiles(ps[..n], u);
      assert forall p :: p in ps <==> p in ps[..n] || p == ps[n];
      assert forall j :: 0 <= j < n ==> ps[..n][j] == ps[j];
      front + (if ps[n].commanderId == u then [ps[n]] else [])
  }

  /** Profile `k` of `cs` is the first with a registered member, and `m` is that member. */
  predicate ConflictAt(r: RosterState, cs: seq<CrewProfile>, k: int, m: Option<UserId>) {
    && 0 <= k < |cs| && FirstRegistered(r, ProfileMembers(cs[k])) == m
    && forall j :: 0 <= j < k ==> FirstRegistered(r, ProfileMembers(cs[j])).None?
  }

  /** The member a first conflict reports is registered and belongs to that profile. */
  lemma ConflictMember(r: RosterState, cs: seq<CrewProfile>, k: int, m: Option<UserId>)
    requires ConflictAt(r, cs, k, m) && m.Some?
    ensures Registered(r, m.value) && m.value in ProfileMembers(cs[k])
  {
  }

  /** A first conflict of the tail is one of the whole list when its head has none. */
  lemma ConflictShift(r: RosterState, cs: seq<CrewProfile>, k: int, m: Option<UserId>)
    requires cs != [] && FirstRegistered(r, ProfileMembers(cs[0])).None?
    requires ConflictAt(r, cs[1..], k, m)
    ensures ConflictAt(r, cs, k + 1, m)
  {
  }

  /** The member reported by the join button's pre-check: profile by profile, the first
      registered member in check order. */
  function FirstConflict(r: RosterState, cs: seq<CrewProfile>): (m: Option<UserId>)
    ensures m.Some? ==> Registered(r, m.value) && exists k :: 0 <= k < |cs| && m.value in ProfileMembers(cs[k])
    ensures m.Some? ==> exists k :: ConflictAt(r, cs, k, m)
    ensures m.None? <==> forall k :: 0 <= k < |cs| ==> FirstRegistered(r, ProfileMembers(cs[k])).None?
  {
    if cs == [] then None
    else match FirstRegistered(r, ProfileMembers(cs[0]))
      case Some(m) =>
        assert ConflictAt(r, cs, 0, Some(m));
        ConflictMember(r, cs, 0, Some(m));
        Some(m)
      case None =>
        var rest := FirstConflict(r, cs[1..]);
        assert forall k :: 1 <= k < |cs| ==> cs[k] == cs[1..][k - 1];
        if rest.Some? then
          var k' :| ConflictAt(r, cs[1..], k', rest);
          ConflictShift(r, cs, k', rest);
          ConflictMember(r, cs, k' + 1, rest);
          rest
        else rest
  }

  /** After the pre-check passes, the member check of the commit cannot fail for any of
      the profiles the pre-check covered. */
  lemma PreCheckCoversCommit(r: RosterState, cs: seq<CrewProfile>, p: CrewProfile)
    requires FirstConflict(r, cs).None? && p in cs
    ensures FirstRegistered(r, ProfileMembers(p)).None?
    ensures forall u :: ProfileCrew(p).Holds(u) ==> !Registered(r, u)
  {
    var k :| 0 <= k < |cs| && cs[k] == p;
    assert FirstRegistered(r, ProfileMembers(cs[k])).None?;
  }

  /** The profile the join flow goes on with: the only one when the user commands exactly
      one, otherwise the first whose id was picked from the dropdown. */
  function SelectedProfile(cs: seq<CrewProfile>, pick: int): (sel: Option<CrewProfile>)
    ensures sel.Some? ==> sel.value in cs
    ensures |cs| == 1 ==> sel == Some(cs[0])
    ensures |cs| != 1 ==> match sel
                          case None => forall k :: 0 <= k < |cs| ==> cs[k].id != pick
                          case Some(p) => exists k :: 0 <= k < |cs| && cs[k] == p && p.id == pick
                                                      && forall j :: 0 <= j < k ==> cs[j].id != pick
  {
    if |cs| == 1 then Some(cs[0]) else ProfileWithId(cs, pick)
  }

  /** The first profile of `cs` with id `pick`. */
  function ProfileWithId(cs: seq<CrewProfile>, pick: int): (sel: Option<CrewProfile>)
    ensures sel.None? <==> forall k :: 0 <= k < |cs| ==> cs[k].id != pick
    ensures sel.Some? ==> exists k :: 0 <= k < |cs| && cs[k] == sel.value && sel.value.id == pick
                                      && forall j :: 0 <= j < k ==> cs[j].id != pick
  {
    if cs == [] then None
    else if cs[0].id == pick then Some(cs[0])
    else
      var rest := ProfileWithId(cs[1..], pick);
      assert forall k :: 1 <= k < |cs| ==> cs[k] == cs[1..][k - 1];
      assert rest.Some? ==> exists k :: 1 <= k < |cs| && cs[k] == rest.value && rest.value.id == pick
                                        && forall j :: 0 <= j < k ==> cs[j].id != pick by {
        if rest.Some? {
          var k' :| 0 <= k' < |cs[1..]| && cs[1..][k'] == rest.value && rest.value.id == pick
                    && forall j :: 0 <= j < k' ==> cs[1..][j].id != pick;
          assert cs[k' + 1] == rest.value;
          forall j | 0 <= j < k' + 1 ensures cs[j].id != pick {
            if j > 0 { assert cs[j] == cs[1..][j - 1]; }
          }
        }
      }
      rest
  }

  // ---------------------------------------------------------------------------------
  // Recruit pool

  /** The index of the first occurrence of `x` in `s`. */
  function IndexOf(s: seq<UserId>, x: UserId): (k: nat)
    requires x in s
    ensures k < |s| && s[k] == x && x !in s[..k]
  {
    if s[0] == x then 0
    else
      var k := IndexOf(s[1..], x) + 1;
      assert s[..k] == [s[0]] + s[1..][..k - 1];
      k
  }

  /** `list.remove(x)` on the recruit pool, when `x` is there; the pool is left as it is
      otherwise. */
  function RemoveFirst(s: seq<UserId>, x: UserId): (r: seq<UserId>)
    ensures x !in s ==> r == s
    ensures x in s ==> var k := IndexOf(s, x); r == s[..k] + s[k + 1..]
    ensures multiset(r) == multiset(s) - multiset{x}
  {
    if x in s then
      var k := IndexOf(s, x);
      assert s == s[..k] + [x] + s[k + 1..];
      s[..k] + s[k + 1..]
    else s
  }

  // ---------------------------------------------------------------------------------
  // The uniqueness invariant

  function OptCount(o: Option<UserId>, u: UserId): nat {
    if o == Some(u) then 1 else 0
  }

  function Hold(s: Slot, u: UserId): nat {
    if SlotHolds(s, u) then 1 else 0
  }

  /** The number of slots of `s` in which `u` holds some position. */
  function SlotsHolding(s: seq<Slot>, u: UserId): nat {
    if s == [] then 0 else SlotsHolding(s[..|s| - 1], u) + Hold(s[|s| - 1], u)
  }

  /** The number of places `u` sits in: each team commander, each slot holding `u`
      (one per slot, however many of its positions `u` holds), each recruit entry. */
  function Places(r: RosterState, u: UserId): nat {
    OptCount(r.commanderA, u) + OptCount(r.commanderB, u)
    + SlotsHolding(r.crewsA, u) + SlotsHolding(r.crewsB, u)
    + multiset(r.recruits)[u]
  }

  /** Uniqueness: no identity sits in more than one of commander A, commander B, a crew
      slot of either team and the recruit pool; in particular the pool has no duplicates. */
  ghost predicate Unique(r: RosterState) {
    forall u :: Places(r, u) <= 1
  }

  lemma {:induction false} SlotsHoldingZero(s: seq<Slot>, u: UserId)
    ensures SlotsHolding(s, u) == 0 <==> forall i :: 0 <= i < |s| ==> !SlotHolds(s[i], u)
  {
    if s != [] {
      var n := |s| - 1;
      SlotsHoldingZero(s[..n], u);
      assert forall i :: 0 <= i < n ==> s[..n][i] == s[i];
    }
  }

  lemma {:induction false} SlotsHoldingUpdate(s: seq<Slot>, i: nat, x: Slot, u: UserId)
    requires i < |s|
    ensures SlotsHolding(s[i := x], u) + Hold(s[i], u) == SlotsHolding(s, u) + Hold(x, u)
  {
    var n := |s| - 1;
    if i == n {
      assert s[i := x][..n] == s[..n];
    } else {
      assert s[i := x][..n] == s[..n][i := x];
      SlotsHoldingUpdate(s[..n], i, x, u);
    }
  }

  /** Pointwise fewer holders means no more holding slots. */
  lemma {:induction false} SlotsHoldingMono(s: seq<Slot>, t: seq<Slot>, u: UserId)
    requires |s| == |t|
    requires forall i :: 0 <= i < |t| && SlotHolds(t[i], u) ==> SlotHolds(s[i], u)
    ensures SlotsHolding(t, u) <= SlotsHolding(s, u)
  {
    if t != [] {
      var n := |t| - 1;
      SlotsHoldingMono(s[..n], t[..n], u);
    }
  }

  /** The scan of `is_user_registered` agrees with the count of places. */
  lemma RegisteredIffPlaced(r: RosterState, u: UserId)
    ensures Registered(r, u) <==> Places(r, u) > 0
  {
    SlotsHoldingZero(r.crewsA, u);
    SlotsHoldingZero(r.crewsB, u);
  }

  lemma EmptyRosterUnique(n: nat)
    ensures Unique(EmptyRoster(n))
    ensures forall u :: !Registered(EmptyRoster(n), u)
  {
    forall u ensures Places(EmptyRoster(n), u) == 0 {
      SlotsHoldingZero(EmptyRoster(n).crewsA, u);
    }
    forall u ensures !Registered(EmptyRoster(n), u) {
      RegisteredIffPlaced(EmptyRoster(n), u);
    }
  }

  /** Becoming a team commander keeps uniqueness when the new commander is unregistered;
      a commander it replaces simply drops out. */
  lemma SetCommanderKeepsUnique(r: RosterState, t: Team, u: UserId)
    requires Unique(r) && !Registered(r, u)
    ensures Unique(r.WithCommander(t, Some(u)))
    ensures Registered(r.WithCommander(t, Some(u)), u)
  {
    RegisteredIffPlaced(r, u);
    var r' := r.WithCommander(t, Some(u));
    forall w ensures Places(r', w) <= 1 {
      if w == u {
        assert Places(r, u) == 0;
      } else {
        assert Places(r', w) <= Places(r, w);
      }
    }
  }

  /** Appending an unregistered user to the pool keeps uniqueness. */
  lemma AddRecruitKeepsUnique(r: RosterState, u: UserId)
    requires Unique(r) && !Registered(r, u)
    ensures Unique(r.WithRecruits(r.recruits + [u]))
    ensures multiset(r.recruits + [u])[u] == 1
  {
    RegisteredIffPlaced(r, u);
    var r' := r.WithRecruits(r.recruits + [u]);
    forall w ensures Places(r', w) <= 1 {
      assert multiset(r.recruits + [u]) == multiset(r.recruits) + multiset{u};
      if w == u {
        assert Places(r', u) == Places(r, u) + 1;
      } else {
        assert Places(r', w) == Places(r, w);
      }
    }
  }

  /** Writing a slot keeps uniqueness when everyone the new slot holds either already held
      the old slot or was unregistered. This covers allocation, position edits, renames
      and clearing. */
  lemma SlotChangeKeepsUnique(r: RosterState, t: Team, i: nat, x: Slot)
    requires Unique(r) && i < |r.Crews(t)|
    requires forall w :: SlotHolds(x, w) ==> SlotHolds(r.Crews(t)[i], w) || !Registered(r, w)
    ensures Unique(r.WithSlot(t, i, x))
  {
    var r' := r.WithSlot(t, i, x);
    forall w ensures Places(r', w) <= 1 {
      SlotsHoldingUpdate(r.Crews(t), i, x, w);
      RegisteredIffPlaced(r, w);
    }
  }

  /** Moving a recruit into a position of an occupied slot keeps uniqueness: the recruit
      leaves the pool, and whoever held the position before may drop out. */
  lemma RecruitMoveKeepsUnique(r: RosterState, t: Team, i: nat, p: Position, x: UserId)
    requires Unique(r) && i < |r.Crews(t)| && r.Crews(t)[i].Some? && x in r.recruits
    ensures var c := r.Crews(t)[i].value;
            Unique(r.WithSlot(t, i, Some(c.WithPosition(p, x))).WithRecruits(RemoveFirst(r.recruits, x)))
  {
    var c := r.Crews(t)[i].value;
    var x' := Some(c.WithPosition(p, x));
    var r' := r.WithSlot(t, i, x').WithRecruits(RemoveFirst(r.recruits, x));
    forall w ensures Places(r', w) <= 1 {
      SlotsHoldingUpdate(r.Crews(t), i, x', w);
      assert Places(r', w) + Hold(r.Crews(t)[i], w) + multiset(r.recruits)[w]
          == Places(r, w) + Hold(x', w) + multiset(r'.recruits)[w];
      assert Places(r, x) >= 1 by { assert multiset(r.recruits)[x] >= 1; }
      if w == x {
        SlotsHoldingZero(r.Crews(t), x);
        assert Hold(r.Crews(t)[i], x) == 0;
        assert multiset(r'.recruits)[x] == multiset(r.recruits)[x] - 1;
      } else {
        assert Hold(x', w) <= Hold(r.Crews(t)[i], w);
        assert multiset(r'.recruits)[w] == multiset(r.recruits)[w];
      }
    }
  }

  /** Assigning a recruit over a gunner or driver who holds no other position of the
      crew drops that player from the roster altogether. */
  lemma RecruitMoveDropsDisplaced(r: RosterState, t: Team, i: nat, p: Position, x: UserId, w: UserId)
    requires Unique(r) && i < |r.Crews(t)| && r.Crews(t)[i].Some? && x in r.recruits
    requires r.Crews(t)[i].value.Holds(w) && !r.Crews(t)[i].value.WithPosition(p, x).Holds(w)
    ensures var c := r.Crews(t)[i].value;
            !Registered(r.WithSlot(t, i, Some(c.WithPosition(p, x))).WithRecruits(RemoveFirst(r.recruits, x)), w)
  {
    var c := r.Crews(t)[i].value;
    var x' := Some(c.WithPosition(p, x));
    var r' := r.WithSlot(t, i, x').WithRecruits(RemoveFirst(r.recruits, x));
    SlotsHoldingUpdate(r.Crews(t), i, x', w);
    assert Places(r', w) + Hold(r.Crews(t)[i], w) + multiset(r.recruits)[w]
        == Places(r, w) + Hold(x', w) + multiset(r'.recruits)[w];
    assert multiset(r'.recruits)[w] <= multiset(r.recruits)[w];
    assert Places(r', w) == 0;
    RegisteredIffPlaced(r', w);
  }

  /** What `LeaveEventButton` does to the roster: clear the team commander (A first, the
      B check only in the `elif`), clear every slot in which `u` holds any position
      (so a leaving gunner or driver empties the whole slot), and remove `u` from the
      pool. */
  function ClearHolding(s: seq<Slot>, u: UserId): (r: seq<Slot>)
    ensures |r| == |s|
    ensures forall i :: 0 <= i < |s| ==> r[i] == (if SlotHolds(s[i], u) then None else s[i])
  {
    seq(|s|, i requires 0 <= i < |s| => if SlotHolds(s[i], u) then None else s[i])
  }

  function AfterLeave(r: RosterState, u: UserId): RosterState {
    RosterState(if r.commanderA == Some(u) then None else r.commanderA,
                if r.commanderA != Some(u) && r.commanderB == Some(u) then None else r.commanderB,
                ClearHolding(r.crewsA, u), ClearHolding(r.crewsB, u),
                RemoveFirst(r.recruits, u))
  }

  /** Leaving changes nothing for an unregistered user. */
  lemma LeaveUnregisteredIsNoOp(r: RosterState, u: UserId)
    requires !Registered(r, u)
    ensures AfterLeave(r, u) == r
  {
    assert ClearHolding(r.crewsA, u) == r.crewsA;
    assert ClearHolding(r.crewsB, u) == r.crewsB;
  }

  /** Leaving never adds a place to anyone. */
  lemma LeaveLowersPlaces(r: RosterState, u: UserId, w: UserId)
    ensures Places(AfterLeave(r, u), w) <= Places(r, w)
  {
    var r' := AfterLeave(r, u);
    SlotsHoldingMono(r.crewsA, r'.crewsA, w);
    SlotsHoldingMono(r.crewsB, r'.crewsB, w);
  }

  /** On a roster where the leaver sits in at most one place, leaving removes it. */
  lemma LeaveClearsLeaver(r: RosterState, u: UserId)
    requires Places(r, u) <= 1
    ensures Places(AfterLeave(r, u), u) == 0
  {
    var r' := AfterLeave(r, u);
    SlotsHoldingZero(r'.crewsA, u);
    SlotsHoldingZero(r'.crewsB, u);
    assert OptCount(r'.commanderB, u) == 0;
    assert multiset(r'.recruits)[u] == 0;
  }

  /** Leaving keeps uniqueness and unregisters the leaver; nobody becomes registered,
      and whoever shared a slot with the leaver loses that slot. */
  lemma LeaveKeepsUnique(r: RosterState, u: UserId)
    requires Unique(r)
    ensures Unique(AfterLeave(r, u))
    ensures !Registered(AfterLeave(r, u), u)
    ensures forall w :: Registered(AfterLeave(r, u), w) ==> Registered(r, w)
  {
    var r' := AfterLeave(r, u);
    forall w ensures Places(r', w) <= Places(r, w) && (Registered(r', w) ==> Registered(r, w)) {
      LeaveLowersPlaces(r, u, w);
      RegisteredIffPlaced(r, w);
      RegisteredIffPlaced(r', w);
    }
    LeaveClearsLeaver(r, u);
    RegisteredIffPlaced(r', u);
  }

  /** Clearing the slots a leaver holds takes one holding slot away from each crewmate. */
  lemma ClearHoldingDropsCrewmate(s: seq<Slot>, u: UserId, i: nat, w: UserId)
    requires i < |s| && SlotHolds(s[i], u) && SlotHolds(s[i], w)
    ensures SlotsHolding(ClearHolding(s, u), w) < SlotsHolding(s, w)
  {
    SlotsHoldingUpdate(s, i, None, w);
    SlotsHoldingMono(s[i := None], ClearHolding(s, u), w);
  }

  /** Under uniqueness, someone who holds a slot holds nothing else: no command, no other
      slot and no place in the pool. */
  lemma SlotHolderHasOnePlace(r: RosterState, t: Team, i: nat, w: UserId)
    requires Unique(r) && i < |r.Crews(t)| && SlotHolds(r.Crews(t)[i], w)
    ensures r.commanderA != Some(w) && r.commanderB != Some(w) && w !in r.recruits
    ensures SlotsHolding(r.Crews(t), w) == 1
    ensures SlotsHolding(r.Crews(if t == A then B else A), w) == 0
  {
    SlotsHoldingUpdate(r.Crews(t), i, None, w);
    assert Places(r, w) <= 1;
  }

  /** Everyone who shared a slot with the leaver drops out of the roster with it. */
  lemma LeaveDropsCrewmates(r: RosterState, u: UserId, t: Team, i: nat, w: UserId)
    requires Unique(r) && i < |r.Crews(t)|
    requires SlotHolds(r.Crews(t)[i], u) && SlotHolds(r.Crews(t)[i], w)
    ensures !Registered(AfterLeave(r, u), w)
  {
    var r' := AfterLeave(r, u);
    SlotHolderHasOnePlace(r, t, i, w);
    if t == A {
      ClearHoldingDropsCrewmate(r.crewsA, u, i, w);
      SlotsHoldingMono(r.crewsB, r'.crewsB, w);
    } else {
      ClearHoldingDropsCrewmate(r.crewsB, u, i, w);
      SlotsHoldingMono(r.crewsA, r'.crewsA, w);
    }
    assert multiset(r'.recruits)[w] == 0;
    assert Places(r', w) == 0;
    RegisteredIffPlaced(r', w);
  }
}
