/** The interactive giveaway set-up (GiveawaySetupView and its modals): a
    draft accumulates basic info, role lists, extra-entry rules and a level
    requirement, each validated as it is submitted, and "Create" turns it
    into an active giveaway in the table. */
module Setup {
  import opened Records
  import opened Giveaways

  /** What the basic-info modal sets, all at once. */
  datatype BasicInfo = BasicInfo(name: string, prizes: string, durationHours: int, winners: int, hostId: int)

  /** The two plain role lists of the role modal. */
  datatype RoleKind = Required | Bypass

  datatype SetupError =
    | NotPositive          // duration or winners <= 0
    | RoleNotFound
    | RoleAlreadyAdded
    | EntriesNotPositive
    | NegativeLevel
    | MissingFields        // create pressed before the basic info was set

  datatype Outcome = Done | Failed(error: SetupError)

  /** `[r for r in rules if r["role_id"] != role]`. */
  function WithoutRole(rules: seq<ExtraEntry>, role: RoleId): (r: seq<ExtraEntry>)
    ensures forall x :: x in r <==> x in rules && x.role != role
    ensures forall i :: 0 <= i < |r| ==> r[i].role != role
    ensures |r| <= |rules|
    ensures ValidRules(rules) ==> ValidRules(r)
  {
    if rules == [] then []
    else
      var init, last := rules[..|rules| - 1], rules[|rules| - 1];
      assert forall x :: x in rules <==> x in init || x == last;
      var r := WithoutRole(init, role);
      if last.role == role then r
      else
        assert ValidRules(rules) ==> forall x :: x in init ==> x.role != last.role by {
          if ValidRules(rules) {
            forall x | x in init ensures x.role != last.role {
              var i :| 0 <= i < |init| && init[i] == x;
              assert rules[i] == x;
            }
          }
        }
        r + [last]
  }

  /** Re-adding an extra-entry role replaces its rule: afterwards the role
      has exactly one rule, the new one, at the end; every other rule is
      kept; and the rule list stays valid. */
  lemma ReplaceRule(rules: seq<ExtraEntry>, role: RoleId, entries: int)
    requires ValidRules(rules) && entries >= 1
    ensures var r := WithoutRole(rules, role) + [ExtraEntry(role, entries)];
            && ValidRules(r)
            && r[|r| - 1] == ExtraEntry(role, entries)
            && (forall i :: 0 <= i < |r| - 1 ==> r[i].role != role)
            && (forall x: ExtraEntry :: x.role != role ==> (x in r <==> x in rules))
  {
    var w := WithoutRole(rules, role);
    var r := w + [ExtraEntry(role, entries)];
    assert forall i :: 0 <= i < |r| - 1 ==> r[i] == w[i];
  }

  /** The filter keeps the surviving rules in their original order. */
  lemma {:induction false} WithoutRoleKeepsOrder(rules: seq<ExtraEntry>, role: RoleId)
    ensures forall i, j :: 0 <= i < j < |WithoutRole(rules, role)| ==>
              exists a, b :: 0 <= a < b < |rules| && rules[a] == WithoutRole(rules, role)[i]
                                                  && rules[b] == WithoutRole(rules, role)[j]
  {
    if rules != [] {
      var init, last := rules[..|rules| - 1], rules[|rules| - 1];
      var w := WithoutRole(init, role);
      var r := WithoutRole(rules, role);
      WithoutRoleKeepsOrder(init, role);
      forall i, j | 0 <= i < j < |WithoutRole(rules, role)|
        ensures exists a, b :: 0 <= a < b < |rules| && rules[a] == WithoutRole(rules, role)[i]
                                                    && rules[b] == WithoutRole(rules, role)[j]
      {
        if j < |w| {
          assert r[i] == w[i] && r[j] == w[j];
          var a, b :| 0 <= a < b < |init| && init[a] == w[i] && init[b] == w[j];
          assert rules[a] == init[a] && rules[b] == init[b];
          assert 0 <= a < b < |rules| && rules[a] == r[i] && rules[b] == r[j];
        } else {
          assert r[j] == last && r[i] == w[i] && w[i] in w;
          var a :| 0 <= a < |init| && init[a] == w[i];
          assert rules[a] == init[a] && rules[|rules| - 1] == last;
          assert 0 <= a < |rules| - 1 < |rules| && rules[a] == r[i] && rules[|rules| - 1] == r[j];
        }
      }
    } else {
      assert |WithoutRole(rules, role)| == 0;
    }
  }

  /** `FirstMatch` over two lists: the first list's match, else the second's. */
  lemma {:induction false} FirstMatchAppend(a: seq<ExtraEntry>, b: seq<ExtraEntry>, roles: set<RoleId>)
    ensures FirstMatch(a + b, roles) == if FirstMatch(a, roles).Some? then FirstMatch(a, roles) else FirstMatch(b, roles)
  {
    if a == [] {
      assert a + b == b;
    } else {
      assert (a + b)[1..] == a[1..] + b;
      FirstMatchAppend(a[1..], b, roles);
    }
  }

  /** Re-adding the extra-entry rule of a role changes nobody's bonus but
      that of holders of the role: the filter keeps the other rules in
      order, so the first match among them is unchanged. */
  lemma {:induction false} ReplaceKeepsBonus(rules: seq<ExtraEntry>, role: RoleId, entries: int, roles: set<RoleId>)
    requires role !in roles
    ensures FirstMatch(WithoutRole(rules, role) + [ExtraEntry(role, entries)], roles) == FirstMatch(rules, roles)
  {
    var w := WithoutRole(rules, role);
    FirstMatchAppend(w, [ExtraEntry(role, entries)], roles);
    assert FirstMatch([ExtraEntry(role, entries)], roles) == None;
    FilterKeepsBonus(rules, role, roles);
  }

  lemma {:induction false} FilterKeepsBonus(rules: seq<ExtraEntry>, role: RoleId, roles: set<RoleId>)
    requires role !in roles
    ensures FirstMatch(WithoutRole(rules, role), roles) == FirstMatch(rules, roles)
  {
    if rules != [] {
      var init, last := rules[..|rules| - 1], rules[|rules| - 1];
      FilterKeepsBonus(init, role, roles);
      assert rules == init + [last];
      FirstMatchAppend(init, [last], roles);
      var w := WithoutRole(init, role);
      if last.role != role {
        FirstMatchAppend(w, [last], roles);
      } else {
        assert FirstMatch([last], roles) == None;
      }
    }
  }

  /** The record create_giveaway_message publishes for a completed draft. */
  function Activate(b: BasicInfo, requiredRoles: seq<RoleId>, bypassRoles: seq<RoleId>,
                    extraEntryRoles: seq<ExtraEntry>, requiredLevel: int,
                    now: int, channelId: ChannelId): (g: Giveaway)
    ensures g.status == Active && g.endTime == now + b.durationHours * 3600
    ensures g.participants == [] && g.winnersList == None && g.claimedWinners == []
    ensures g.name == b.name && g.prizes == b.prizes && g.winners == b.winners
            && g.hostId == b.hostId && g.channelId == channelId
    ensures g.requiredRoles == requiredRoles && g.bypassRoles == bypassRoles
            && g.extraEntryRoles == extraEntryRoles && g.requiredLevel == requiredLevel
  {
    Giveaway(b.name, b.prizes, b.durationHours, b.winners, b.hostId, channelId,
             now + b.durationHours * 3600, Active,
             requiredRoles, bypassRoles, extraEntryRoles, requiredLevel,
             [], None, [])
  }

  /** A validated draft activates into a well-formed giveaway that the
      scheduler will not end before at least an hour has passed. */
  lemma ActivateWellFormed(b: BasicInfo, requiredRoles: seq<RoleId>, bypassRoles: seq<RoleId>,
                           extraEntryRoles: seq<ExtraEntry>, requiredLevel: int,
                           now: int, channelId: ChannelId)
    requires b.durationHours >= 1 && b.winners >= 1 && requiredLevel >= 0
    requires NoDuplicates(requiredRoles) && NoDuplicates(bypassRoles) && ValidRules(extraEntryRoles)
    ensures var g := Activate(b, requiredRoles, bypassRoles, extraEntryRoles, requiredLevel, now, channelId);
            WellFormed(g) && g.endTime >= now + 3600
            && forall t :: t < now + 3600 ==> !Due(g, t)
  {
  }

  class GiveawaySetup {
    var basic: Option<BasicInfo>
    var requiredRoles: seq<RoleId>
    var bypassRoles: seq<RoleId>
    var extraEntryRoles: seq<ExtraEntry>
    var requiredLevel: int   // an unset level reads as 0

    /** What the modals' checks guarantee about a draft. */
    ghost predicate Valid()
      reads this
    {
      && (basic.Some? ==> basic.value.durationHours >= 1 && basic.value.winners >= 1)
      && NoDuplicates(requiredRoles)
      && NoDuplicates(bypassRoles)
      && ValidRules(extraEntryRoles)
      && requiredLevel >= 0
    }

    constructor ()
      ensures Valid()
      ensures basic == None && requiredRoles == [] && bypassRoles == [] && extraEntryRoles == []
      ensures requiredLevel == 0
    {
      basic := None;
      requiredRoles := [];
      bypassRoles := [];
      extraEntryRoles := [];
      requiredLevel := 0;
    }

    /** The basic-info modal: duration and winners must be positive. */
    method SubmitBasic(name: string, prizes: string, durationHours: int, winners: int, hostId: int)
      returns (r: Outcome)
      requires Valid()
      modifies this`basic
      ensures Valid()
      ensures r == (if durationHours <= 0 || winners <= 0 then Failed(NotPositive) else Done)
      ensures basic == if r == Done then Some(BasicInfo(name, prizes, durationHours, winners, hostId)) else old(basic)
    {
      if durationHours <= 0 || winners <= 0 {
        return Failed(NotPositive);
      }
      basic := Some(BasicInfo(name, prizes, durationHours, winners, hostId));
      r := Done;
    }

    /** The role modal for required and bypass roles: the role must exist
        and is appended once. */
    method AddRole(kind: RoleKind, role: RoleId, roleExists: bool) returns (r: Outcome)
      requires Valid()
      modifies this`requiredRoles, this`bypassRoles
      ensures Valid()
      ensures var before := if kind == Required then old(requiredRoles) else old(bypassRoles);
              r == (if !roleExists then Failed(RoleNotFound)
                    else if role in before then Failed(RoleAlreadyAdded)
                    else Done)
      ensures kind == Required ==>
                (&& bypassRoles == old(bypassRoles)
                 && requiredRoles == if r == Done then old(requiredRoles) + [role] else old(requiredRoles))
      ensures kind == Bypass ==>
                (&& requiredRoles == old(requiredRoles)
                 && bypassRoles == if r == Done then old(bypassRoles) + [role] else old(bypassRoles))
    {
      if !roleExists {
        return Failed(RoleNotFound);
      }
      var roles := if kind == Required then requiredRoles else bypassRoles;
      if role in roles {
        return Failed(RoleAlreadyAdded);
      }
      if kind == Required {
        requiredRoles := requiredRoles + [role];
      } else {
        bypassRoles := bypassRoles + [role];
      }
      r := Done;
    }

    /** The extra-entry modal: the count must be positive, the role must
        exist, and an earlier rule for the same role is replaced. */
    method AddExtraEntry(role: RoleId, entries: int, roleExists: bool) returns (r: Outcome)
      requires Valid()
      modifies this`extraEntryRoles
      ensures Valid()
      ensures r == (if entries <= 0 then Failed(EntriesNotPositive)
                    else if !roleExists then Failed(RoleNotFound)
                    else Done)
      ensures extraEntryRoles == if r == Done then WithoutRole(old(extraEntryRoles), role) + [ExtraEntry(role, entries)]
                                 else old(extraEntryRoles)
    {
      if entries <= 0 {
        return Failed(EntriesNotPositive);
      }
      if !roleExists {
        return Failed(RoleNotFound);
      }
      ReplaceRule(extraEntryRoles, role, entries);
      extraEntryRoles := WithoutRole(extraEntryRoles, role);
      extraEntryRoles := extraEntryRoles + [ExtraEntry(role, entries)];
      r := Done;
    }

    /** The level modal: the level must not be negative. */
    method SetLevel(level: int) returns (r: Outcome)
      requires Valid()
      modifies this`requiredLevel
      ensures Valid()
      ensures r == (if level < 0 then Failed(NegativeLevel) else Done)
      ensures requiredLevel == if r == Done then level else old(requiredLevel)
    {
      if level < 0 {
        return Failed(NegativeLevel);
      }
      requiredLevel := level;
      r := Done;
    }

    /** The create button: refused until the basic info is set; otherwise
        publishes the active giveaway under the fresh id `id`, ending
        `durationHours` hours after `now`. */
    method Create(store: GiveawayStore, id: GiveawayId, now: int, channelId: ChannelId) returns (r: Outcome)
      requires Valid() && store.Valid() && id !in store.records
      modifies store
      ensures store.Valid() && Evolves(old(store.records), store.records)
      ensures r == (if basic.None? then Failed(MissingFields) else Done)
      ensures r == Done ==>
                && store.records == old(store.records)[id := Activate(basic.value, requiredRoles, bypassRoles,
                                                                      extraEntryRoles, requiredLevel, now, channelId)]
                && store.order == old(store.order) + [id]
      ensures r != Done ==> store.records == old(store.records) && store.order == old(store.order)
    {
      if basic.None? {
        return Failed(MissingFields);
      }
      ActivateWellFormed(basic.value, requiredRoles, bypassRoles, extraEntryRoles, requiredLevel, now, channelId);
      var g := Activate(basic.value, requiredRoles, bypassRoles, extraEntryRoles, requiredLevel, now, channelId);
      store.Add(id, g);
      r := Done;
    }
  }
}
