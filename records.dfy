/** The giveaway record and the pure rules about its parts: participants
    (an insertion-ordered mapping from member to entry count), extra-entry
    rules, role gates and the winners/claims ledger. */
module Records {

  type UserId = string
  type RoleId = int
  type GiveawayId = string
  type ChannelId = int

  datatype Option<T> = None | Some(value: T)

  /** A stored giveaway is "active" until the scheduler ends it. */
  datatype Status = Active | Ended

  /** One extra-entry rule: holders of `role` get `entries` slots in the draw. */
  datatype ExtraEntry = ExtraEntry(role: RoleId, entries: int)

  /** One participant and their number of entries. */
  datatype Participant = Participant(user: UserId, entries: int)

  datatype Giveaway = Giveaway(
    name: string,
    prizes: string,
    durationHours: int,
    winners: int,
    hostId: int,
    channelId: ChannelId,
    endTime: int,
    status: Status,
    requiredRoles: seq<RoleId>,
    bypassRoles: seq<RoleId>,
    extraEntryRoles: seq<ExtraEntry>,
    requiredLevel: int,
    participants: seq<Participant>,
    winnersList: Option<seq<UserId>>,  // None: the key is absent
    claimedWinners: seq<UserId>        // an absent key reads as []
  )

  predicate NoDuplicates<T(==)>(s: seq<T>)
  {
    forall i, j :: 0 <= i < j < |s| ==> s[i] != s[j]
  }

  /** The member ids of a participant list, in join order. */
  function Users(ps: seq<Participant>): (us: seq<UserId>)
    ensures |us| == |ps|
    ensures forall i :: 0 <= i < |ps| ==> us[i] == ps[i].user
  {
    seq(|ps|, i requires 0 <= i < |ps| => ps[i].user)
  }

  predicate IsParticipant(ps: seq<Participant>, u: UserId)
  {
    u in Users(ps)
  }

  /** Participant entries: distinct members, each with at least one entry. */
  predicate ValidParticipants(ps: seq<Participant>)
  {
    NoDuplicates(Users(ps)) && forall i :: 0 <= i < |ps| ==> ps[i].entries >= 1
  }

  /** Extra-entry rules: one rule per role, each granting at least one entry. */
  predicate ValidRules(rules: seq<ExtraEntry>)
  {
    (forall i, j :: 0 <= i < j < |rules| ==> rules[i].role != rules[j].role)
    && forall i :: 0 <= i < |rules| ==> rules[i].entries >= 1
  }

  /** Every invariant a stored giveaway keeps. */
  predicate WellFormed(g: Giveaway)
  {
    && g.durationHours >= 1
    && g.winners >= 1
    && g.requiredLevel >= 0
    && NoDuplicates(g.requiredRoles)
    && NoDuplicates(g.bypassRoles)
    && ValidRules(g.extraEntryRoles)
    && ValidParticipants(g.participants)
    && NoDuplicates(g.claimedWinners)
    && (match g.winnersList
        case None => g.claimedWinners == []
        case Some(w) =>
          && g.status == Ended
          && NoDuplicates(w)
          && (forall u :: u in w ==> IsParticipant(g.participants, u))
          && (forall u :: u in g.claimedWinners ==> u in w))
  }

  /** True iff the member holds at least one of `listed`. */
  predicate HoldsAny(listed: seq<RoleId>, roles: set<RoleId>)
  {
    exists i :: 0 <= i < |listed| && listed[i] in roles
  }

  // ---------------------------------------------------------------------
  // Participant lookup and update (the participants dict)

  /** The entries recorded for `u`, if `u` has joined. */
  function Lookup(ps: seq<Participant>, u: UserId): (r: Option<int>)
    ensures r.None? <==> !IsParticipant(ps, u)
    ensures r.Some? ==> exists i :: 0 <= i < |ps| && ps[i] == Participant(u, r.value)
  {
    if ps == [] then None
    else if ps[|ps| - 1].user == u then Some(ps[|ps| - 1].entries)
    else
      var r := Lookup(ps[..|ps| - 1], u);
      assert Users(ps) == Users(ps[..|ps| - 1]) + [ps[|ps| - 1].user];
      r
  }

  /** Dictionary assignment `ps[u] = e`: an existing member keeps their
      position, a new member goes to the end. */
  function Upsert(ps: seq<Participant>, u: UserId, e: int): (r: seq<Participant>)
    ensures IsParticipant(ps, u) ==> |r| == |ps|
    ensures !IsParticipant(ps, u) ==> r == ps + [Participant(u, e)]
    ensures forall i :: 0 <= i < |ps| && ps[i].user != u ==> r[i] == ps[i]
    ensures forall i :: 0 <= i < |ps| && ps[i].user == u ==> r[i] == Participant(u, e)
  {
    if ps == [] then [Participant(u, e)]
    else
      var init, last := ps[..|ps| - 1], ps[|ps| - 1];
      assert Users(ps) == Users(init) + [last.user];
      if last.user == u then
        (if IsParticipant(init, u) then Upsert(init, u, e) else init) + [Participant(u, e)]
      else
        var r0 := Upsert(init, u, e);
        if IsParticipant(init, u) then r0 + [last]
        else assert ps + [Participant(u, e)] == init + [last] + [Participant(u, e)]; ps + [Participant(u, e)]
  }

  /** Upserting into a valid participant list with a positive count keeps it
      valid, records `e` for `u` and leaves every other member as it was. */
  lemma UpsertValid(ps: seq<Participant>, u: UserId, e: int)
    requires ValidParticipants(ps) && e >= 1
    ensures ValidParticipants(Upsert(ps, u, e))
    ensures Lookup(Upsert(ps, u, e), u) == Some(e)
    ensures forall v :: v != u ==> Lookup(Upsert(ps, u, e), v) == Lookup(ps, v)
    ensures forall v :: IsParticipant(Upsert(ps, u, e), v) <==> IsParticipant(ps, v) || v == u
  {
    UpsertLookup(ps, u, e);
  }

  /** Dictionary assignment on a list of distinct members (as dict keys
      always are) keeps them distinct, makes `u` map to `e` and leaves every
      other member's entry alone. */
  lemma UpsertLookup(ps: seq<Participant>, u: UserId, e: int)
    requires NoDuplicates(Users(ps))
    ensures NoDuplicates(Users(Upsert(ps, u, e)))
    ensures Lookup(Upsert(ps, u, e), u) == Some(e)
    ensures forall v :: v != u ==> Lookup(Upsert(ps, u, e), v) == Lookup(ps, v)
    ensures forall v :: IsParticipant(Upsert(ps, u, e), v) <==> IsParticipant(ps, v) || v == u
  {
    var r := Upsert(ps, u, e);
    var ur, up := Users(r), Users(ps);
    if IsParticipant(ps, u) {
      forall i | 0 <= i < |r| ensures ur[i] == up[i] {
      }
      assert ur == up;
    } else {
      assert ur == up + [u];
    }
    LookupOfValid(r, u, e);
    forall v | v != u ensures Lookup(r, v) == Lookup(ps, v) {
      match Lookup(ps, v) {
        case None =>
        case Some(x) =>
          var i :| 0 <= i < |ps| && ps[i] == Participant(v, x);
          LookupOfValid(r, v, x);
      }
    }
  }

  /** In a list without repeated members, an entry of the list is what Lookup finds. */
  lemma LookupOfValid(ps: seq<Participant>, u: UserId, e: int)
    requires NoDuplicates(Users(ps))
    requires Participant(u, e) in ps
    ensures Lookup(ps, u) == Some(e)
  {
    var r := Lookup(ps, u);
    var i :| 0 <= i < |ps| && ps[i] == Participant(u, e);
    var j :| 0 <= j < |ps| && ps[j] == Participant(u, r.value);
    assert Users(ps)[i] == Users(ps)[j];
  }
}
