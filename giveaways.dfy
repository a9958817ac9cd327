/** The giveaway table (`giveaways_data`) and the operations that change it
    once a giveaway is live: joining, the scheduler tick that ends expired
    giveaways, the winner draw, claiming prizes and the unclaimed report. */
module Giveaways {
  import opened Records
  import opened Levels
  import opened Draw

  // ---------------------------------------------------------------------
  // Eligibility and entry weight (the join button)

  datatype Refusal = MissingRole | LevelTooLow

  datatype JoinOutcome = NotActive | Refused(reason: Refusal) | Joined(entries: int)

  /** The role gate, then the level gate (which a bypass role opens). */
  function GateCheck(g: Giveaway, roles: set<RoleId>, xp: int): (r: Option<Refusal>)
    ensures r == Some(MissingRole) <==> |g.requiredRoles| > 0 && !HoldsAny(g.requiredRoles, roles)
    ensures r == Some(LevelTooLow) <==>
              (|g.requiredRoles| == 0 || HoldsAny(g.requiredRoles, roles))
              && g.requiredLevel > 0 && Level(xp) < g.requiredLevel
              && !HoldsAny(g.bypassRoles, roles)
  {
    if |g.requiredRoles| > 0 && !HoldsAny(g.requiredRoles, roles) then Some(MissingRole)
    else if g.requiredLevel > 0 && Level(xp) < g.requiredLevel && !HoldsAny(g.bypassRoles, roles) then Some(LevelTooLow)
    else None
  }

  /** The checks of join_giveaway, in the order it makes them: the required
      roles, then the level, which a bypass role overrides. */
  method Gate(g: Giveaway, roles: set<RoleId>, xp: int) returns (refusal: Option<Refusal>)
    ensures refusal == GateCheck(g, roles, xp)
  {
    if |g.requiredRoles| > 0 && !HoldsAny(g.requiredRoles, roles) {
      return Some(MissingRole);
    }
    if g.requiredLevel > 0 {
      var level := Level(xp);
      if level < g.requiredLevel {
        if |g.bypassRoles| > 0 {
          if !HoldsAny(g.bypassRoles, roles) {
            return Some(LevelTooLow);
          }
        } else {
          return Some(LevelTooLow);
        }
      }
    }
    return None;
  }

  /** For a member with non-negative xp the level gate is an xp threshold:
      they pass it iff no level is required, their xp reaches the required
      level's threshold, or they hold a bypass role. */
  lemma LevelGateByXp(g: Giveaway, roles: set<RoleId>, xp: int)
    requires xp >= 0 && g.requiredLevel >= 0
    requires |g.requiredRoles| == 0 || HoldsAny(g.requiredRoles, roles)
    ensures GateCheck(g, roles, xp) == None <==>
              g.requiredLevel == 0 || xp >= XpForLevel(g.requiredLevel) || HoldsAny(g.bypassRoles, roles)
  {
    LevelReachedIff(xp, g.requiredLevel);
  }

  /** The entries of the first extra-entry rule whose role the member holds. */
  function FirstMatch(rules: seq<ExtraEntry>, roles: set<RoleId>): (r: Option<int>)
    ensures r.None? <==> forall i :: 0 <= i < |rules| ==> rules[i].role !in roles
    ensures r.Some? ==> exists i :: 0 <= i < |rules| && rules[i].role in roles && r.value == rules[i].entries
                                    && forall j :: 0 <= j < i ==> rules[j].role !in roles
  {
    if rules == [] then None
    else if rules[0].role in roles then Some(rules[0].entries)
    else
      var r := FirstMatch(rules[1..], roles);
      assert r.Some? ==> exists i :: 0 <= i < |rules| && rules[i].role in roles && r.value == rules[i].entries
                                     && forall j :: 0 <= j < i ==> rules[j].role !in roles by {
        if r.Some? {
          var i :| 0 <= i < |rules[1..]| && rules[1..][i].role in roles && r.value == rules[1..][i].entries
                   && forall j :: 0 <= j < i ==> rules[1..][j].role !in roles;
          assert rules[i + 1].role in roles && forall j :: 0 <= j < i + 1 ==> rules[j].role !in roles;
        }
      }
      r
  }

  /** The entries a joining member ends up with: the first matching rule's,
      else what they already had, else one. */
  function NewEntries(current: Option<int>, bonus: Option<int>): int
  {
    match bonus
    case Some(e) => e
    case None => match current case Some(c) => c case None => 1
  }

  /** The entry count of a joining member: one for a newcomer, the current
      count for a returning member, overwritten by the first extra-entry
      rule whose role the member holds. */
  method JoinEntries(current: Option<int>, rules: seq<ExtraEntry>, roles: set<RoleId>) returns (entries: int)
    ensures entries == NewEntries(current, FirstMatch(rules, roles))
  {
    entries := if current.Some? then current.value else 1;
    var i := 0;
    while i < |rules|
      invariant 0 <= i <= |rules|
      invariant FirstMatch(rules, roles) == FirstMatch(rules[i..], roles)
      invariant entries == NewEntries(current, None)
    {
      if rules[i].role in roles {
        entries := rules[i].entries;
        break;
      }
      assert rules[i..][1..] == rules[i + 1..];
      i := i + 1;
    }
  }

  /** The record after `u` joins `g` holding `roles`. */
  function Enroll(g: Giveaway, u: UserId, roles: set<RoleId>): (r: Giveaway)
    ensures r == g.(participants := r.participants)
    ensures NoDuplicates(Users(g.participants)) ==>
              && Lookup(r.participants, u) == Some(NewEntries(Lookup(g.participants, u), FirstMatch(g.extraEntryRoles, roles)))
              && forall v :: v != u ==> Lookup(r.participants, v) == Lookup(g.participants, v)
  {
    var ps := g.participants;
    var e := NewEntries(Lookup(ps, u), FirstMatch(g.extraEntryRoles, roles));
    assert NoDuplicates(Users(ps)) ==>
             (Lookup(Upsert(ps, u, e), u) == Some(e)
              && forall v :: v != u ==> Lookup(Upsert(ps, u, e), v) == Lookup(ps, v)) by {
      if NoDuplicates(Users(ps)) {
        UpsertLookup(ps, u, e);
      }
    }
    g.(participants := Upsert(ps, u, e))
  }

  /** A join records at least one entry for the member (extra-entry counts
      being validated positive), the first matching rule wins, a member
      without a matching rule keeps their entries, and nobody else changes. */
  lemma EnrollEntries(g: Giveaway, u: UserId, roles: set<RoleId>)
    requires WellFormed(g) && g.status == Active
    ensures WellFormed(Enroll(g, u, roles))
    ensures var e := Lookup(Enroll(g, u, roles).participants, u);
            e.Some? && e.value >= 1
            && (FirstMatch(g.extraEntryRoles, roles).Some? ==> e == FirstMatch(g.extraEntryRoles, roles))
            && (FirstMatch(g.extraEntryRoles, roles).None? && IsParticipant(g.participants, u) ==> e == Lookup(g.participants, u))
            && (FirstMatch(g.extraEntryRoles, roles).None? && !IsParticipant(g.participants, u) ==> e == Some(1))
    ensures forall v :: v != u ==> Lookup(Enroll(g, u, roles).participants, v) == Lookup(g.participants, v)
    ensures Enroll(g, u, roles) == g.(participants := Enroll(g, u, roles).participants)
  {
    var ps := g.participants;
    var bonus := FirstMatch(g.extraEntryRoles, roles);
    var cur := Lookup(ps, u);
    if cur.Some? {
      var i :| 0 <= i < |ps| && ps[i] == Participant(u, cur.value);
    }
    UpsertValid(ps, u, NewEntries(cur, bonus));
  }

  /** Storing a join keeps the table invariant, is a legal step for the
      record, and records the entries the join computed: the record the
      join loop builds is the enrolled one. */
  lemma JoinCommit(rs: map<GiveawayId, Giveaway>, order: seq<GiveawayId>, id: GiveawayId, u: UserId, roles: set<RoleId>,
                   entries: int, joined: Giveaway)
    requires TableOk(rs, order) && IsActive(rs, id)
    requires entries == NewEntries(Lookup(rs[id].participants, u), FirstMatch(rs[id].extraEntryRoles, roles))
    requires joined == rs[id].(participants := Upsert(rs[id].participants, u, entries))
    ensures joined == Enroll(rs[id], u, roles)
    ensures var r := rs[id := joined];
            && TableOk(r, order) && Evolves(rs, r)
            && Lookup(r[id].participants, u) == Some(entries) && entries >= 1
  {
    var g := rs[id];
    assert WellFormed(g);
    EnrollEntries(g, u, roles);
    TableUpdate(rs, order, id, joined);
    EvolvesUpdate(rs, id, joined);
  }

  /** The entry count is fixed by the roles held at the latest join: a
      member who joined with the higher rule and rejoins holding only a
      lower one is lowered, not kept. */
  lemma RejoinCanLowerEntries(g: Giveaway)
    requires g.extraEntryRoles == [ExtraEntry(1, 2), ExtraEntry(2, 5)]
    requires g.participants == []
    ensures var once := Enroll(g, "m", {2});
            Lookup(once.participants, "m") == Some(5)
            && Lookup(Enroll(once, "m", {1}).participants, "m") == Some(2)
  {
    assert FirstMatch(g.extraEntryRoles, {2}) == Some(5);
    assert FirstMatch(g.extraEntryRoles, {1}) == Some(2);
    var once := Enroll(g, "m", {2});
    assert once.participants == [Participant("m", 5)];
    assert Users(once.participants) == ["m"];
  }

  /** A required level of 10 with bypass role 1: a level-3 member holding
      the bypass role passes, one without it is refused for level. */
  lemma BypassRoleAdmitsLowLevel(g: Giveaway)
    requires g.requiredRoles == [] && g.requiredLevel == 10 && g.bypassRoles == [1]
    ensures Level(900) == 3
    ensures GateCheck(g, {1}, 900) == None
    ensures GateCheck(g, {}, 900) == Some(LevelTooLow)
  {
    IsqrtUnique(9, 3);
    assert HoldsAny(g.bypassRoles, {1}) by { assert g.bypassRoles[0] in {1}; }
  }

  // ---------------------------------------------------------------------
  // Ending a giveaway

  predicate IsActive(rs: map<GiveawayId, Giveaway>, id: GiveawayId)
  {
    id in rs && rs[id].status == Active
  }

  /** What the draw needs when it runs: a fitting sample for an active
      record whose channel exists and which has participants. */
  predicate SampleOk(g: Giveaway, channels: set<ChannelId>, slots: seq<nat>)
  {
    (g.status == Active && g.channelId in channels && |g.participants| > 0)
      ==> SampleFits(g.participants, g.winners, slots)
  }

  /** The record after end_giveaway: always ended; winners are drawn only
      when the announcement channel exists and somebody joined. */
  function Finish(g: Giveaway, channels: set<ChannelId>, slots: seq<nat>): (r: Giveaway)
    requires g.status == Active && SampleOk(g, channels, slots)
    ensures r.status == Ended
    ensures r == g.(status := Ended, winnersList := r.winnersList)
    ensures !(g.channelId in channels && |g.participants| > 0) ==> r.winnersList == g.winnersList
    ensures g.channelId in channels && |g.participants| > 0 ==> r.winnersList.Some? && var w := r.winnersList.value;
              NoDuplicates(w)
              && (forall u :: u in w ==> IsParticipant(g.participants, u))
              && |w| <= WinnerCount(g.winners, |g.participants|)
              && (g.winners >= 1 ==> |w| >= 1)
              && (forall u :: u in w <==> exists j :: 0 <= j < |slots| && Pool(g.participants)[slots[j]] == u)
  {
    var ended := g.(status := Ended);
    if g.channelId !in channels || |g.participants| == 0 then ended
    else ended.(winnersList := Some(DrawWinners(g.participants, g.winners, slots)))
  }

  /** Ending keeps every record invariant. */
  lemma FinishWellFormed(g: Giveaway, channels: set<ChannelId>, slots: seq<nat>)
    requires WellFormed(g) && g.status == Active && SampleOk(g, channels, slots)
    ensures WellFormed(Finish(g, channels, slots))
  {
  }

  /** Due for the scheduler: active and its end time has passed. */
  predicate Due(g: Giveaway, now: int)
  {
    g.status == Active && now >= g.endTime
  }

  function SampleFor(samples: map<GiveawayId, seq<nat>>, id: GiveawayId): seq<nat>
  {
    if id in samples then samples[id] else []
  }

  /** Every due record has the sample its draw needs. */
  predicate SamplesOk(rs: map<GiveawayId, Giveaway>, now: int, channels: set<ChannelId>, samples: map<GiveawayId, seq<nat>>)
  {
    forall id :: id in rs && Due(rs[id], now) ==> SampleOk(rs[id], channels, SampleFor(samples, id))
  }

  /** One scheduler tick: every due record is ended (when the guild is reachable). */
  function Tick(rs: map<GiveawayId, Giveaway>, now: int, guildAvailable: bool,
                channels: set<ChannelId>, samples: map<GiveawayId, seq<nat>>): (r: map<GiveawayId, Giveaway>)
    requires SamplesOk(rs, now, channels, samples)
    ensures r.Keys == rs.Keys
    ensures forall id :: id in rs && guildAvailable && Due(rs[id], now) ==> r[id].status == Ended
    ensures forall id :: id in rs && guildAvailable && Due(rs[id], now) ==>
              r[id] == Finish(rs[id], channels, SampleFor(samples, id))
    ensures forall id :: id in rs && !(guildAvailable && Due(rs[id], now)) ==> r[id] == rs[id]
  {
    map id | id in rs :: if guildAvailable && Due(rs[id], now) then Finish(rs[id], channels, SampleFor(samples, id)) else rs[id]
  }

  /** A second tick at the same time ends nothing more: no record is drawn twice. */
  lemma TickIdempotent(rs: map<GiveawayId, Giveaway>, now: int, guildAvailable: bool,
                       channels: set<ChannelId>, samples: map<GiveawayId, seq<nat>>)
    requires SamplesOk(rs, now, channels, samples)
    ensures SamplesOk(Tick(rs, now, guildAvailable, channels, samples), now, channels, samples)
    ensures var once := Tick(rs, now, guildAvailable, channels, samples);
            Tick(once, now, guildAvailable, channels, samples) == once
  {
    var once := Tick(rs, now, guildAvailable, channels, samples);
    forall id | id in once ensures !(guildAvailable && Due(once[id], now)) {
    }
  }

  // ---------------------------------------------------------------------
  // Claims and the unclaimed report

  /** `u` won `g` (an ended giveaway with a non-empty winners list). */
  predicate CanClaim(g: Giveaway, u: UserId)
  {
    g.status == Ended && g.winnersList.Some? && |g.winnersList.value| > 0 && u in g.winnersList.value
  }

  /** `g` after `u` runs the claim command. */
  function ClaimFor(g: Giveaway, u: UserId): (r: Giveaway)
    ensures r == g.(claimedWinners := r.claimedWinners)
    ensures u in r.claimedWinners <==> u in g.claimedWinners || CanClaim(g, u)
    ensures forall v :: v != u ==> (v in r.claimedWinners <==> v in g.claimedWinners)
    ensures WellFormed(g) ==> WellFormed(r)
    ensures g.claimedWinners <= r.claimedWinners
  {
    if CanClaim(g, u) && u !in g.claimedWinners then g.(claimedWinners := g.claimedWinners + [u]) else g
  }

  /** Some giveaway still has a prize `u` can claim. */
  predicate Claimable(rs: map<GiveawayId, Giveaway>, u: UserId)
  {
    exists id :: id in rs && CanClaim(rs[id], u) && u !in rs[id].claimedWinners
  }

  /** The claim command over the whole table: `u` is recorded as having
      claimed every prize they won, nothing else changes, and the table
      changes exactly when there was something to claim. */
  function ClaimAll(rs: map<GiveawayId, Giveaway>, u: UserId): (r: map<GiveawayId, Giveaway>)
    ensures r.Keys == rs.Keys
    ensures forall id :: id in rs ==> r[id] == rs[id].(claimedWinners := r[id].claimedWinners)
    ensures forall id, v :: id in rs ==>
              (v in r[id].claimedWinners <==> v in rs[id].claimedWinners || (v == u && CanClaim(rs[id], u)))
    ensures r != rs <==> Claimable(rs, u)
  {
    var r := map id | id in rs :: ClaimFor(rs[id], u);
    assert Claimable(rs, u) ==> r != rs by {
      if Claimable(rs, u) {
        var id :| id in rs && CanClaim(rs[id], u) && u !in rs[id].claimedWinners;
        assert u in r[id].claimedWinners;
      }
    }
    assert !Claimable(rs, u) ==> r == rs by {
      if !Claimable(rs, u) {
        forall id | id in rs ensures r[id] == rs[id] {
        }
      }
    }
    r
  }

  /** Claiming twice is claiming once, and the second claim finds nothing. */
  lemma ClaimTwice(rs: map<GiveawayId, Giveaway>, u: UserId)
    ensures ClaimAll(ClaimAll(rs, u), u) == ClaimAll(rs, u)
    ensures !Claimable(ClaimAll(rs, u), u)
  {
    var once := ClaimAll(rs, u);
    forall id | id in once ensures ClaimFor(once[id], u) == once[id] {
      assert CanClaim(once[id], u) ==> u in once[id].claimedWinners;
    }
  }

  /** `[w for w in winners if w not in claimed]`. */
  function Unclaimed(winners: seq<UserId>, claimed: seq<UserId>): (r: seq<UserId>)
    ensures forall x :: x in r <==> x in winners && x !in claimed
    ensures NoDuplicates(winners) ==> NoDuplicates(r)
    ensures |r| <= |winners|
  {
    if winners == [] then []
    else
      var init, last := winners[..|winners| - 1], winners[|winners| - 1];
      assert forall x :: x in winners <==> x in init || x == last;
      var r := Unclaimed(init, claimed);
      if last in claimed then r else r + [last]
  }

  /** With a duplicate-free ledger, the unclaimed count is the number of
      winners minus the number of claims. */
  lemma UnclaimedCount(winners: seq<UserId>, claimed: seq<UserId>)
    requires NoDuplicates(winners) && NoDuplicates(claimed)
    requires forall u :: u in claimed ==> u in winners
    ensures |Unclaimed(winners, claimed)| == |winners| - |claimed|
  {
    var r := Unclaimed(winners, claimed);
    DistinctCard(winners);
    DistinctCard(claimed);
    DistinctCard(r);
    assert (set x | x in r) == (set x | x in winners) - (set x | x in claimed);
    assert (set x | x in claimed) <= (set x | x in winners);
  }

  lemma {:induction false} DistinctCard(s: seq<UserId>)
    requires NoDuplicates(s)
    ensures |set x | x in s| == |s|
  {
    if s != [] {
      var init := s[..|s| - 1];
      DistinctCard(init);
      assert (set x | x in s) == (set x | x in init) + {s[|s| - 1]};
    }
  }

  datatype Summary = Summary(name: string, unclaimedCount: nat)

  /** The report line for `g`, if it has unclaimed prizes. */
  function ReportLine(g: Giveaway): (r: Option<Summary>)
    ensures r.Some? <==> g.status == Ended && g.winnersList.Some?
                         && exists u :: u in g.winnersList.value && u !in g.claimedWinners
    ensures r.Some? ==> r.value.name == g.name && r.value.unclaimedCount >= 1
  {
    if g.status == Ended && g.winnersList.Some? && |g.winnersList.value| > 0 then
      var un := Unclaimed(g.winnersList.value, g.claimedWinners);
      assert |un| > 0 <==> exists u :: u in g.winnersList.value && u !in g.claimedWinners by {
        if |un| > 0 {
          assert un[0] in un;
        }
      }
      if |un| > 0 then Some(Summary(g.name, |un|)) else None
    else None
  }

  /** A report line for a well-formed giveaway counts its winners minus its
      claims, and there is one exactly when that difference is positive. */
  lemma ReportLineCount(g: Giveaway)
    requires WellFormed(g)
    ensures ReportLine(g).Some? <==>
              g.status == Ended && g.winnersList.Some? && |g.winnersList.value| > |g.claimedWinners|
    ensures ReportLine(g).Some? ==>
              ReportLine(g).value == Summary(g.name, |g.winnersList.value| - |g.claimedWinners|)
  {
    if g.winnersList.Some? {
      UnclaimedCount(g.winnersList.value, g.claimedWinners);
    }
  }

  /** The report lines for the giveaways `ids`, in table order. */
  function Report(ids: seq<GiveawayId>, rs: map<GiveawayId, Giveaway>): (r: seq<Summary>)
    requires forall id :: id in ids ==> id in rs
    ensures |r| <= |ids|
    ensures forall k :: 0 <= k < |r| ==> r[k].unclaimedCount >= 1
  {
    if ids == [] then []
    else
      var init := ids[..|ids| - 1];
      var line := ReportLine(rs[ids[|ids| - 1]]);
      Report(init, rs) + (if line.Some? then [line.value] else [])
  }

  /** The report lists exactly the report lines of the listed giveaways. */
  lemma {:induction false} ReportMembers(ids: seq<GiveawayId>, rs: map<GiveawayId, Giveaway>, s: Summary)
    requires forall id :: id in ids ==> id in rs
    ensures s in Report(ids, rs) <==> exists id :: id in ids && ReportLine(rs[id]) == Some(s)
  {
    if ids != [] {
      var init := ids[..|ids| - 1];
      ReportMembers(init, rs, s);
      assert forall id :: id in ids <==> id in init || id == ids[|ids| - 1];
    }
  }

  // ---------------------------------------------------------------------
  // The table

  /** How one record may change: status only moves from active to ended,
      the end time is fixed, a winners list once set stays, claims only grow. */
  predicate Step(a: Giveaway, b: Giveaway)
  {
    && (a.status == Ended ==> b.status == Ended)
    && b.endTime == a.endTime
    && (a.winnersList.Some? ==> b.winnersList == a.winnersList)
    && a.claimedWinners <= b.claimedWinners
  }

  /** How the table may change: no record disappears and each one steps. */
  predicate Evolves(before: map<GiveawayId, Giveaway>, after: map<GiveawayId, Giveaway>)
  {
    before.Keys <= after.Keys && forall id :: id in before ==> Step(before[id], after[id])
  }

  lemma EvolvesTransitive(a: map<GiveawayId, Giveaway>, b: map<GiveawayId, Giveaway>, c: map<GiveawayId, Giveaway>)
    requires Evolves(a, b) && Evolves(b, c)
    ensures Evolves(a, c)
  {
    forall id | id in a ensures Step(a[id], c[id]) {
      PrefixTransitive(a[id].claimedWinners, b[id].claimedWinners, c[id].claimedWinners);
    }
  }

  lemma EvolvesUpdate(rs: map<GiveawayId, Giveaway>, id: GiveawayId, g: Giveaway)
    requires id in rs && Step(rs[id], g)
    ensures Evolves(rs, rs[id := g])
  {
  }

  lemma PrefixTransitive(a: seq<UserId>, b: seq<UserId>, c: seq<UserId>)
    requires a <= b && b <= c
    ensures a <= c
  {
    assert c[..|a|] == c[..|b|][..|a|];
  }

  lemma UpdateSame(m: map<GiveawayId, Giveaway>, k: GiveawayId)
    requires k in m
    ensures m[k := m[k]] == m
  {
  }

  lemma UpdateTwice(m: map<GiveawayId, Giveaway>, k: GiveawayId, a: Giveaway, b: Giveaway)
    ensures m[k := a][k := b] == m[k := b]
  {
  }

  /** The table invariant: the insertion order lists every id once, and
      every record is well formed. */
  ghost predicate TableOk(rs: map<GiveawayId, Giveaway>, order: seq<GiveawayId>)
  {
    && NoDuplicates(order)
    && (forall id :: id in rs <==> id in order)
    && forall id {:trigger WellFormed(rs[id])} :: id in rs ==> WellFormed(rs[id])
  }

  lemma TableUpdate(rs: map<GiveawayId, Giveaway>, order: seq<GiveawayId>, id: GiveawayId, g: Giveaway)
    requires TableOk(rs, order) && id in rs && WellFormed(g)
    ensures TableOk(rs[id := g], order)
  {
  }

  /** Claiming keeps the table invariant and is a legal step for every record. */
  lemma ClaimAllTable(rs: map<GiveawayId, Giveaway>, order: seq<GiveawayId>, u: UserId)
    requires TableOk(rs, order)
    ensures TableOk(ClaimAll(rs, u), order) && Evolves(rs, ClaimAll(rs, u))
  {
    var r := ClaimAll(rs, u);
    forall id | id in r ensures WellFormed(r[id]) {
      assert WellFormed(rs[id]);
    }
  }

  /** A tick keeps the table invariant and is a legal step for every record. */
  lemma TickTable(rs: map<GiveawayId, Giveaway>, order: seq<GiveawayId>, now: int, guildAvailable: bool,
                  channels: set<ChannelId>, samples: map<GiveawayId, seq<nat>>)
    requires TableOk(rs, order) && SamplesOk(rs, now, channels, samples)
    ensures var r := Tick(rs, now, guildAvailable, channels, samples);
            TableOk(r, order) && Evolves(rs, r)
  {
    var r := Tick(rs, now, guildAvailable, channels, samples);
    forall id | id in r ensures WellFormed(r[id]) && Step(rs[id], r[id]) {
      assert WellFormed(rs[id]);
      if guildAvailable && Due(rs[id], now) {
        FinishWellFormed(rs[id], channels, SampleFor(samples, id));
      }
    }
  }

  /** The table after the scheduler loop has visited the ids in `ids`, in
      that order: each visited record that was due is ended. */
  function TickSome(rs: map<GiveawayId, Giveaway>, ids: seq<GiveawayId>, now: int, guildAvailable: bool,
                    channels: set<ChannelId>, samples: map<GiveawayId, seq<nat>>): (r: map<GiveawayId, Giveaway>)
    requires SamplesOk(rs, now, channels, samples)
    ensures r.Keys == rs.Keys
    decreases |ids|
  {
    if ids == [] then rs
    else
      var prev := TickSome(rs, ids[..|ids| - 1], now, guildAvailable, channels, samples);
      var id := ids[|ids| - 1];
      if id in rs && guildAvailable && Due(rs[id], now)
      then prev[id := Finish(rs[id], channels, SampleFor(samples, id))]
      else prev
  }

  /** After visiting `ids`, a record is ended exactly when it was visited
      and due; every other record is untouched. */
  lemma {:induction false} TickSomeAt(rs: map<GiveawayId, Giveaway>, ids: seq<GiveawayId>, now: int, guildAvailable: bool,
                                      channels: set<ChannelId>, samples: map<GiveawayId, seq<nat>>, x: GiveawayId)
    requires SamplesOk(rs, now, channels, samples) && x in rs
    ensures TickSome(rs, ids, now, guildAvailable, channels, samples)[x]
            == if x in ids && guildAvailable && Due(rs[x], now) then Finish(rs[x], channels, SampleFor(samples, x)) else rs[x]
    decreases |ids|
  {
    if ids != [] {
      var init := ids[..|ids| - 1];
      assert ids == init + [ids[|ids| - 1]];
      TickSomeAt(rs, init, now, guildAvailable, channels, samples, x);
    }
  }

  /** The i-th id of a duplicate-free order is new to the prefix before it. */
  lemma NextInOrder(rs: map<GiveawayId, Giveaway>, order: seq<GiveawayId>, i: int)
    requires TableOk(rs, order) && 0 <= i < |order|
    ensures order[i] in rs && order[i] !in order[..i]
  {
    forall j | 0 <= j < i ensures order[..i][j] != order[i] {
      assert order[..i][j] == order[j];
    }
  }

  /** One iteration of the scheduler loop: the record at position i is
      still the original, and visiting it ends it when it is due. */
  lemma TickStep(rs: map<GiveawayId, Giveaway>, order: seq<GiveawayId>, i: int, now: int, guildAvailable: bool,
                 channels: set<ChannelId>, samples: map<GiveawayId, seq<nat>>)
    requires TableOk(rs, order) && SamplesOk(rs, now, channels, samples) && 0 <= i < |order|
    ensures order[i] in rs
    ensures TickSome(rs, order[..i], now, guildAvailable, channels, samples)[order[i]] == rs[order[i]]
    ensures var prev := TickSome(rs, order[..i], now, guildAvailable, channels, samples);
            TickSome(rs, order[..i + 1], now, guildAvailable, channels, samples)
            == if guildAvailable && Due(rs[order[i]], now)
               then prev[order[i] := Finish(rs[order[i]], channels, SampleFor(samples, order[i]))]
               else prev
  {
    NextInOrder(rs, order, i);
    TickSomeAt(rs, order[..i], now, guildAvailable, channels, samples, order[i]);
    assert order[..i + 1][..i] == order[..i];
  }

  /** Before the loop nothing is ticked. */
  lemma TickStart(rs: map<GiveawayId, Giveaway>, order: seq<GiveawayId>, now: int, guildAvailable: bool,
                  channels: set<ChannelId>, samples: map<GiveawayId, seq<nat>>)
    requires SamplesOk(rs, now, channels, samples)
    ensures TickSome(rs, order[..0], now, guildAvailable, channels, samples) == rs
  {
    assert order[..0] == [];
  }

  /** After the loop the whole table is ticked. */
  lemma TickEnds(rs: map<GiveawayId, Giveaway>, order: seq<GiveawayId>, now: int, guildAvailable: bool,
                 channels: set<ChannelId>, samples: map<GiveawayId, seq<nat>>)
    requires TableOk(rs, order) && SamplesOk(rs, now, channels, samples)
    ensures TickSome(rs, order, now, guildAvailable, channels, samples) == Tick(rs, now, guildAvailable, channels, samples)
  {
    var r := TickSome(rs, order, now, guildAvailable, channels, samples);
    assert r.Keys == Tick(rs, now, guildAvailable, channels, samples).Keys;
    forall x | x in rs ensures r[x] == Tick(rs, now, guildAvailable, channels, samples)[x] {
      TickSomeAt(rs, order, now, guildAvailable, channels, samples, x);
    }
  }

  /** After the scheduler loop: the table is the tick of the original, and
      keeps the table invariant. */
  lemma TickDone(rs: map<GiveawayId, Giveaway>, order: seq<GiveawayId>, now: int, guildAvailable: bool,
                 channels: set<ChannelId>, samples: map<GiveawayId, seq<nat>>)
    requires TableOk(rs, order) && SamplesOk(rs, now, channels, samples)
    ensures var r := TickSome(rs, order[..|order|], now, guildAvailable, channels, samples);
            && r == Tick(rs, now, guildAvailable, channels, samples)
            && TableOk(r, order) && Evolves(rs, r)
  {
    assert order[..|order|] == order;
    TickEnds(rs, order, now, guildAvailable, channels, samples);
    TickTable(rs, order, now, guildAvailable, channels, samples);
  }

  /** The table after the claim loop has visited the ids in `ids`, in that
      order: each visited record is claimed for `u`. */
  function ClaimSome(rs: map<GiveawayId, Giveaway>, ids: seq<GiveawayId>, u: UserId): (r: map<GiveawayId, Giveaway>)
    ensures r.Keys == rs.Keys
    decreases |ids|
  {
    if ids == [] then rs
    else
      var prev := ClaimSome(rs, ids[..|ids| - 1], u);
      var id := ids[|ids| - 1];
      if id in prev then prev[id := ClaimFor(prev[id], u)] else prev
  }

  /** Whether the claim loop, visiting `ids` in order, found a prize to claim. */
  predicate ClaimedIn(rs: map<GiveawayId, Giveaway>, ids: seq<GiveawayId>, u: UserId)
    decreases |ids|
  {
    && ids != []
    && var prev := ClaimSome(rs, ids[..|ids| - 1], u);
       var id := ids[|ids| - 1];
       || ClaimedIn(rs, ids[..|ids| - 1], u)
       || (id in prev && CanClaim(prev[id], u) && u !in prev[id].claimedWinners)
  }

  /** After visiting `ids`, a record is claimed exactly when it was visited
      (visiting twice is visiting once). */
  lemma {:induction false} ClaimSomeAt(rs: map<GiveawayId, Giveaway>, ids: seq<GiveawayId>, u: UserId, x: GiveawayId)
    requires x in rs
    ensures ClaimSome(rs, ids, u)[x] == if x in ids then ClaimFor(rs[x], u) else rs[x]
    decreases |ids|
  {
    if ids != [] {
      var init := ids[..|ids| - 1];
      assert ids == init + [ids[|ids| - 1]];
      ClaimSomeAt(rs, init, u, x);
    }
  }

  /** The loop finds a prize to claim exactly when a visited record had an
      unclaimed prize for `u` to begin with. */
  lemma {:induction false} ClaimedInIff(rs: map<GiveawayId, Giveaway>, ids: seq<GiveawayId>, u: UserId)
    ensures ClaimedIn(rs, ids, u) <==> exists x :: x in ids && x in rs && CanClaim(rs[x], u) && u !in rs[x].claimedWinners
    decreases |ids|
  {
    if ids != [] {
      var init, last := ids[..|ids| - 1], ids[|ids| - 1];
      assert ids == init + [last];
      ClaimedInIff(rs, init, u);
      if last in rs {
        ClaimSomeAt(rs, init, u, last);
      }
      if ClaimedIn(rs, ids, u) && !ClaimedIn(rs, init, u) {
        assert last in rs && CanClaim(rs[last], u) && u !in rs[last].claimedWinners;
      }
      if exists x :: x in ids && x in rs && CanClaim(rs[x], u) && u !in rs[x].claimedWinners {
        var x :| x in ids && x in rs && CanClaim(rs[x], u) && u !in rs[x].claimedWinners;
        if x != last {
          assert x in init;
        }
      }
    }
  }

  /** One iteration of the claim loop: from the table `cur` after the first
      i ids, the record at position i gains the claim exactly when `u` won
      it and had not claimed it yet. */
  lemma ClaimStep(rs: map<GiveawayId, Giveaway>, order: seq<GiveawayId>, i: int, u: UserId,
                  cur: map<GiveawayId, Giveaway>, curAny: bool, claims: bool,
                  next: map<GiveawayId, Giveaway>, nextAny: bool)
    requires TableOk(rs, order) && 0 <= i < |order|
    requires cur == ClaimSome(rs, order[..i], u) && curAny == ClaimedIn(rs, order[..i], u)
    requires order[i] in cur
    requires var g := cur[order[i]];
             && claims == (CanClaim(g, u) && u !in g.claimedWinners)
             && next == (if claims then cur[order[i] := g.(claimedWinners := g.claimedWinners + [u])] else cur)
             && nextAny == (curAny || claims)
    ensures next == ClaimSome(rs, order[..i + 1], u) && nextAny == ClaimedIn(rs, order[..i + 1], u)
  {
    assert order[..i + 1][..i] == order[..i];
    var g := cur[order[i]];
    if !(CanClaim(g, u) && u !in g.claimedWinners) {
      UpdateSame(cur, order[i]);
    }
  }

  /** Before the loop nothing is claimed. */
  lemma ClaimStart(rs: map<GiveawayId, Giveaway>, order: seq<GiveawayId>, u: UserId)
    ensures ClaimSome(rs, order[..0], u) == rs && !ClaimedIn(rs, order[..0], u)
  {
    assert order[..0] == [];
  }

  /** After the loop the whole table is claimed, and something was claimed
      exactly when the table held a prize `u` could claim. */
  lemma ClaimEnds(rs: map<GiveawayId, Giveaway>, order: seq<GiveawayId>, u: UserId)
    requires TableOk(rs, order)
    ensures ClaimSome(rs, order, u) == ClaimAll(rs, u)
    ensures ClaimedIn(rs, order, u) <==> Claimable(rs, u)
  {
    var r := ClaimSome(rs, order, u);
    assert r.Keys == ClaimAll(rs, u).Keys;
    forall x | x in rs ensures r[x] == ClaimAll(rs, u)[x] {
      ClaimSomeAt(rs, order, u, x);
    }
    ClaimedInIff(rs, order, u);
  }

  /** After the claim loop: the table is the claim of the original, keeps
      the table invariant, and the flag tells whether anything was claimable. */
  lemma ClaimDone(rs: map<GiveawayId, Giveaway>, order: seq<GiveawayId>, u: UserId)
    requires TableOk(rs, order)
    ensures var r := ClaimSome(rs, order[..|order|], u);
            && r == ClaimAll(rs, u)
            && TableOk(r, order) && Evolves(rs, r)
            && (ClaimedIn(rs, order[..|order|], u) <==> Claimable(rs, u))
  {
    assert order[..|order|] == order;
    ClaimEnds(rs, order, u);
    ClaimAllTable(rs, order, u);
  }

  class GiveawayStore {
    /** The giveaways by id, and the ids in insertion order (the dict's order). */
    var records: map<GiveawayId, Giveaway>
    var order: seq<GiveawayId>

    ghost predicate Valid()
      reads this
    {
      TableOk(records, order)
    }

    constructor ()
      ensures Valid() && records == map[] && order == []
    {
      records := map[];
      order := [];
    }

    /** Publishes a newly created giveaway under a fresh id. */
    method Add(id: GiveawayId, g: Giveaway)
      requires Valid() && id !in records && WellFormed(g)
      modifies this
      ensures Valid() && Evolves(old(records), records)
      ensures records == old(records)[id := g] && order == old(order) + [id]
    {
      records := records[id := g];
      order := order + [id];
      assert WellFormed(records[id]);
    }

    /** The join button. */
    method Join(id: GiveawayId, user: UserId, roles: set<RoleId>, xp: int) returns (outcome: JoinOutcome)
      requires Valid()
      modifies this
      ensures Valid() && order == old(order) && Evolves(old(records), records)
      ensures outcome.NotActive? <==> !IsActive(old(records), id)
      ensures IsActive(old(records), id) ==>
                match GateCheck(old(records)[id], roles, xp)
                case Some(why) => outcome == Refused(why)
                case None => outcome.Joined?
      ensures outcome.Joined? ==> records == old(records)[id := Enroll(old(records)[id], user, roles)]
                                  && Lookup(records[id].participants, user) == Some(outcome.entries)
                                  && outcome.entries >= 1
      ensures !outcome.Joined? ==> records == old(records)
    {
      if id !in records || records[id].status != Active {
        return NotActive;
      }
      var g := records[id];
      var refusal := Gate(g, roles, xp);
      if refusal.Some? {
        return Refused(refusal.value);
      }
      var entries := JoinEntries(Lookup(g.participants, user), g.extraEntryRoles, roles);
      var joined := g.(participants := Upsert(g.participants, user, entries));
      JoinCommit(records, order, id, user, roles, entries, joined);
      records := records[id := joined];
      outcome := Joined(entries);
    }

    /** end_giveaway: flips an active record to ended, then (channel found,
        participants present) draws and records the winners. */
    method EndGiveaway(id: GiveawayId, channels: set<ChannelId>, slots: seq<nat>)
      requires Valid()
      requires id in records ==> SampleOk(records[id], channels, slots)
      modifies this
      ensures Valid() && order == old(order) && Evolves(old(records), records)
      ensures records == if IsActive(old(records), id)
                         then old(records)[id := Finish(old(records)[id], channels, slots)]
                         else old(records)
    {
      if id !in records || records[id].status != Active {
        return;
      }
      var g := records[id];
      assert WellFormed(records[id]);

      // mark as ended first, so that no later call draws again
      var ended := g.(status := Ended);
      TableUpdate(records, order, id, ended);
      EvolvesUpdate(records, id, ended);
      records := records[id := ended];

      if g.channelId !in channels {
        return;
      }
      if |g.participants| == 0 {
        return;
      }

      var pool := BuildPool(g.participants);
      var k := WinnerCount(g.winners, |g.participants|);
      assert |slots| == k;
      var sample := Picked(pool, slots);
      var unique := RemoveDuplicates(sample);

      var drawn := ended.(winnersList := Some(unique));
      assert drawn == Finish(g, channels, slots);
      FinishWellFormed(g, channels, slots);
      TableUpdate(records, order, id, drawn);
      EvolvesUpdate(old(records), id, drawn);
      UpdateTwice(old(records), id, ended, drawn);
      records := records[id := drawn];
    }

    /** The once-a-minute check_giveaways task. */
    method CheckGiveaways(now: int, guildAvailable: bool, channels: set<ChannelId>, samples: map<GiveawayId, seq<nat>>)
      requires Valid()
      requires SamplesOk(records, now, channels, samples)
      modifies this
      ensures Valid() && order == old(order) && Evolves(old(records), records)
      ensures records == Tick(old(records), now, guildAvailable, channels, samples)
    {
      ghost var rs, ord := records, order;
      TickStart(rs, ord, now, guildAvailable, channels, samples);
      var i := 0;
      while i < |order|
        invariant 0 <= i <= |order|
        invariant Valid() && order == ord
        invariant records == TickSome(rs, ord[..i], now, guildAvailable, channels, samples)
      {
        var id := order[i];
        TickStep(rs, ord, i, now, guildAvailable, channels, samples);
        var due := guildAvailable && records[id].status == Active && now >= records[id].endTime;
        if due {
          EndGiveaway(id, channels, SampleFor(samples, id));
        }
        i := i + 1;
      }
      TickDone(rs, ord, now, guildAvailable, channels, samples);
    }

    /** The giveaway_claim command; `claimedAny` is whether anything was newly claimed. */
    method Claim(user: UserId) returns (claimedAny: bool)
      requires Valid()
      modifies this
      ensures Valid() && order == old(order) && Evolves(old(records), records)
      ensures records == ClaimAll(old(records), user)
      ensures claimedAny == Claimable(old(records), user)
    {
      ghost var rs, ord := records, order;
      ClaimStart(rs, ord, user);
      // the loop edits the records one by one; nothing else runs meanwhile,
      // so the table is written back once at the end
      var table := records;
      claimedAny := false;
      var i := 0;
      while i < |order|
        invariant 0 <= i <= |order| && order == ord
        invariant table == ClaimSome(rs, ord[..i], user)
        invariant claimedAny == ClaimedIn(rs, ord[..i], user)
      {
        var id := order[i];
        ghost var cur, curAny := table, claimedAny;
        assert id in rs;
        var g := table[id];
        var won := g.status == Ended && g.winnersList.Some? && |g.winnersList.value| > 0 && user in g.winnersList.value;
        var claims := won && user !in g.claimedWinners;
        if claims {
          table := table[id := g.(claimedWinners := g.claimedWinners + [user])];
          claimedAny := true;
        }
        ClaimStep(rs, ord, i, user, cur, curAny, claims, table, claimedAny);
        i := i + 1;
      }
      ClaimDone(rs, ord, user);
      records := table;
    }

    /** The giveaway_unclaimed command: one line per giveaway with unclaimed prizes. */
    method UnclaimedReport() returns (report: seq<Summary>)
      requires Valid()
      ensures report == Report(order, records)
    {
      report := [];
      var i := 0;
      while i < |order|
        invariant 0 <= i <= |order|
        invariant report == Report(order[..i], records)
      {
        var g := records[order[i]];
        if g.status == Ended && g.winnersList.Some? && |g.winnersList.value| > 0 {
          var unclaimed := Unclaimed(g.winnersList.value, g.claimedWinners);
          if |unclaimed| > 0 {
            report := report + [Summary(g.name, |unclaimed|)];
          }
        }
        assert order[..i + 1][..i] == order[..i];
        i := i + 1;
      }
      assert order[..|order|] == order;
    }
  }
}
