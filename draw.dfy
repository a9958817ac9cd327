/** The weighted winner draw of end_giveaway: every participant is expanded
    into as many pool slots as they have entries, `min(winners, #participants)`
    distinct slots are sampled, and the sampled members are deduplicated in
    first-seen order.

    The random sample itself is an input: a list of distinct slot indices. */
module Draw {
  import opened Records

  /** `[u] * n` in Python: n copies of u, none when n <= 0. */
  function Repeat(u: UserId, n: int): (r: seq<UserId>)
    ensures |r| == if n > 0 then n else 0
    ensures forall i :: 0 <= i < |r| ==> r[i] == u
  {
    if n <= 0 then [] else Repeat(u, n - 1) + [u]
  }

  /** The sum of the (non-negative parts of the) entry counts. */
  function TotalEntries(ps: seq<Participant>): int
  {
    if ps == [] then 0
    else TotalEntries(ps[..|ps| - 1]) + (if ps[|ps| - 1].entries > 0 then ps[|ps| - 1].entries else 0)
  }

  /** The weighted pool: each participant, in join order, repeated once per
      entry, so the pool has exactly one slot per entry. */
  function Pool(ps: seq<Participant>): (r: seq<UserId>)
    ensures |r| == TotalEntries(ps)
  {
    if ps == [] then []
    else Pool(ps[..|ps| - 1]) + Repeat(ps[|ps| - 1].user, ps[|ps| - 1].entries)
  }

  /** With every participant holding at least one entry the pool has at
      least one slot per participant, so `random.sample` can always draw
      `min(winners, #participants)` slots. */
  lemma {:induction false} PoolCoversParticipants(ps: seq<Participant>)
    requires forall i :: 0 <= i < |ps| ==> ps[i].entries >= 1
    ensures |Pool(ps)| >= |ps|
  {
    TotalAtLeastCount(ps);
  }

  lemma {:induction false} TotalAtLeastCount(ps: seq<Participant>)
    requires forall i :: 0 <= i < |ps| ==> ps[i].entries >= 1
    ensures TotalEntries(ps) >= |ps|
  {
    if ps != [] {
      TotalAtLeastCount(ps[..|ps| - 1]);
    }
  }

  /** A pool slot belongs to a participant with a positive entry count, and
      every such participant has a slot. */
  lemma {:induction false} PoolMembers(ps: seq<Participant>, u: UserId)
    ensures u in Pool(ps) <==> exists i :: 0 <= i < |ps| && ps[i].user == u && ps[i].entries > 0
  {
    if ps != [] {
      var init, last := ps[..|ps| - 1], ps[|ps| - 1];
      PoolMembers(init, u);
      assert u in Pool(ps) <==> u in Pool(init) || u in Repeat(last.user, last.entries);
      if u in Pool(init) {
        var i :| 0 <= i < |init| && init[i].user == u && init[i].entries > 0;
        assert ps[i] == init[i];
      }
      if exists i :: 0 <= i < |ps| && ps[i].user == u && ps[i].entries > 0 {
        var i :| 0 <= i < |ps| && ps[i].user == u && ps[i].entries > 0;
        if i < |init| {
          assert init[i] == ps[i];
        } else {
          assert Repeat(last.user, last.entries)[0] == u;
        }
      }
    }
  }

  /** Weighting: a participant occupies exactly as many pool slots as their
      entry count (participants being distinct). */
  lemma {:induction false} PoolWeight(ps: seq<Participant>, i: int)
    requires NoDuplicates(Users(ps)) && 0 <= i < |ps|
    ensures multiset(Pool(ps))[ps[i].user] == if ps[i].entries > 0 then ps[i].entries else 0
  {
    var init, u := ps[..|ps| - 1], ps[i].user;
    PoolCountSplit(ps, u);
    if i < |ps| - 1 {
      InitDistinct(ps, i);
      PoolWeight(init, i);
    } else {
      LastDistinct(ps);
      PoolAbsent(init, u);
    }
  }

  /** How often `u` occurs in the pool: in the pool of all but the last
      participant, plus the last participant's slots if they are `u`. */
  lemma PoolCountSplit(ps: seq<Participant>, u: UserId)
    requires ps != []
    ensures var last := ps[|ps| - 1];
            multiset(Pool(ps))[u] == multiset(Pool(ps[..|ps| - 1]))[u]
                                     + (if last.user == u && last.entries > 0 then last.entries else 0)
  {
    var last := ps[|ps| - 1];
    assert Pool(ps) == Pool(ps[..|ps| - 1]) + Repeat(last.user, last.entries);
    RepeatCount(last.user, last.entries, u);
  }

  lemma InitDistinct(ps: seq<Participant>, i: int)
    requires NoDuplicates(Users(ps)) && 0 <= i < |ps| - 1
    ensures NoDuplicates(Users(ps[..|ps| - 1])) && ps[..|ps| - 1][i] == ps[i]
    ensures ps[|ps| - 1].user != ps[i].user
  {
    assert Users(ps[..|ps| - 1]) == Users(ps)[..|ps| - 1];
    assert Users(ps)[i] != Users(ps)[|ps| - 1];
  }

  lemma LastDistinct(ps: seq<Participant>)
    requires NoDuplicates(Users(ps)) && ps != []
    ensures forall j :: 0 <= j < |ps| - 1 ==> ps[j].user != ps[|ps| - 1].user
  {
    forall j | 0 <= j < |ps| - 1 ensures ps[j].user != ps[|ps| - 1].user {
      assert Users(ps)[j] != Users(ps)[|ps| - 1];
    }
  }

  lemma RepeatCount(v: UserId, n: int, u: UserId)
    ensures multiset(Repeat(v, n))[u] == if u == v && n > 0 then n else 0
  {
    if n > 0 {
      RepeatCount(v, n - 1, u);
      assert Repeat(v, n) == Repeat(v, n - 1) + [v];
    }
  }

  lemma PoolAbsent(ps: seq<Participant>, u: UserId)
    requires forall j :: 0 <= j < |ps| ==> ps[j].user != u
    ensures multiset(Pool(ps))[u] == 0
  {
    PoolMembers(ps, u);
  }

  // ---------------------------------------------------------------------
  // Sampling and deduplication

  /** What `random.sample(pool, k)` may return: k distinct slots of the pool. */
  predicate ValidSample(slots: seq<nat>, poolSize: nat, k: int)
  {
    && |slots| == k
    && (forall j :: 0 <= j < |slots| ==> slots[j] < poolSize)
    && NoDuplicates(slots)
  }

  /** The members sitting in the sampled slots, in sampling order. */
  function Picked(pool: seq<UserId>, slots: seq<nat>): (r: seq<UserId>)
    requires forall j :: 0 <= j < |slots| ==> slots[j] < |pool|
    ensures |r| == |slots|
    ensures forall j :: 0 <= j < |slots| ==> r[j] == pool[slots[j]]
  {
    seq(|slots|, j requires 0 <= j < |slots| => pool[slots[j]])
  }

  /** `random.sample` draws without replacement: the sampled members, counted
      with multiplicity, are a sub-multiset of the pool. */
  lemma {:induction false} PickedWithinPool(pool: seq<UserId>, slots: seq<nat>)
    requires ValidSample(slots, |pool|, |slots|)
    ensures multiset(Picked(pool, slots)) <= multiset(pool)
    decreases |slots|
  {
    if slots != [] {
      var n := |slots| - 1;
      var s := slots[n];
      DropSlot(pool, slots);
      PickedWithinPool(pool[..s] + pool[s + 1..], Renumber(slots[..n], s));
      assert Picked(pool, slots) == Picked(pool, slots[..n]) + [pool[s]];
      WithoutSlot(pool, s);
    }
  }

  /** The slots after slot s of the pool moved down by one, as they are once
      slot s is taken out. */
  function Renumber(slots: seq<nat>, s: nat): seq<nat>
  {
    seq(|slots|, j requires 0 <= j < |slots| => if slots[j] <= s then slots[j] else slots[j] - 1)
  }

  /** Taking the last sampled slot out of the pool leaves the other samples
      a valid sample of what remains, picking the same members. */
  lemma DropSlot(pool: seq<UserId>, slots: seq<nat>)
    requires ValidSample(slots, |pool|, |slots|) && slots != []
    ensures var n, s := |slots| - 1, slots[|slots| - 1];
            var rest, shifted := pool[..s] + pool[s + 1..], Renumber(slots[..n], s);
            ValidSample(shifted, |rest|, n) && Picked(rest, shifted) == Picked(pool, slots[..n])
  {
    var n, s := |slots| - 1, slots[|slots| - 1];
    var shifted := Renumber(slots[..n], s);
    forall a, b | 0 <= a < b < n ensures shifted[a] != shifted[b] {
      assert slots[a] != slots[b] && slots[a] != s && slots[b] != s;
    }
  }

  lemma WithoutSlot(pool: seq<UserId>, s: nat)
    requires s < |pool|
    ensures multiset(pool) == multiset(pool[..s] + pool[s + 1..]) + multiset{pool[s]}
  {
    assert pool == pool[..s] + [pool[s]] + pool[s + 1..];
  }

  /** So a participant is sampled at most as often as they hold entries. */
  lemma PickedAtMostEntries(ps: seq<Participant>, slots: seq<nat>, i: int)
    requires NoDuplicates(Users(ps)) && 0 <= i < |ps|
    requires ValidSample(slots, |Pool(ps)|, |slots|)
    ensures multiset(Picked(Pool(ps), slots))[ps[i].user] <= if ps[i].entries > 0 then ps[i].entries else 0
  {
    PickedWithinPool(Pool(ps), slots);
    PoolWeight(ps, i);
  }

  /** The first occurrence of every element, in first-seen order. */
  function Dedup(s: seq<UserId>): (r: seq<UserId>)
    ensures NoDuplicates(r)
    ensures forall x :: x in r <==> x in s
    ensures |r| <= |s|
  {
    if s == [] then []
    else
      var d := Dedup(s[..|s| - 1]);
      assert forall x :: x in s <==> x in s[..|s| - 1] || x == s[|s| - 1];
      if s[|s| - 1] in d then d else d + [s[|s| - 1]]
  }

  /** Deduplication keeps the order in which members are first seen. */
  lemma {:induction false} DedupFirstSeen(s: seq<UserId>)
    ensures FirstSeenOrder(s, Dedup(s))
  {
    if s != [] {
      var init, last := s[..|s| - 1], s[|s| - 1];
      var d := Dedup(init);
      DedupFirstSeen(init);
      assert s == init + [last];
      if last in d {
        FirstSeenExtend(init, last, d);
      } else {
        FirstSeenAppend(init, last, d);
      }
    }
  }

  /** `r` lists its members in the order they are first seen in `s`:
      wherever a later member of `r` occurs in `s`, every earlier one has
      already occurred. */
  predicate FirstSeenOrder(s: seq<UserId>, r: seq<UserId>)
  {
    forall i, j, a :: 0 <= i < j < |r| && 0 <= a < |s| && s[a] == r[j] ==> r[i] in s[..a]
  }

  lemma FirstSeenExtend(init: seq<UserId>, last: UserId, d: seq<UserId>)
    requires FirstSeenOrder(init, d)
    requires forall x :: x in d ==> x in init
    ensures FirstSeenOrder(init + [last], d)
  {
    var s := init + [last];
    forall i, j, a | 0 <= i < j < |d| && 0 <= a < |s| && s[a] == d[j] ensures d[i] in s[..a] {
      if a < |init| {
        assert init[a] == d[j];
        assert s[..a] == init[..a];
      } else {
        assert d[i] in init && s[..a] == init;
      }
    }
  }

  lemma FirstSeenAppend(init: seq<UserId>, last: UserId, d: seq<UserId>)
    requires FirstSeenOrder(init, d)
    requires forall x :: x in d ==> x in init
    requires last !in init
    ensures FirstSeenOrder(init + [last], d + [last])
  {
    var s, r := init + [last], d + [last];
    FirstSeenExtend(init, last, d);
    forall i, j, a | 0 <= i < j < |r| && 0 <= a < |s| && s[a] == r[j] ensures r[i] in s[..a] {
      if j < |d| {
        assert r[i] == d[i] && r[j] == d[j];
      } else {
        assert forall k :: 0 <= k < |init| ==> s[k] == init[k];
        assert a == |init|;
        assert r[i] == d[i] && d[i] in init && s[..a] == init;
      }
    }
  }

  /** Deduplication leaves a list without repeats as it is: the sampled
      order survives. */
  lemma {:induction false} DedupOfDistinct(s: seq<UserId>)
    requires NoDuplicates(s)
    ensures Dedup(s) == s
  {
    if s != [] {
      var init := s[..|s| - 1];
      DedupOfDistinct(init);
      assert s[|s| - 1] !in init;
      assert s == init + [s[|s| - 1]];
    }
  }

  /** The number of slots end_giveaway samples: `min(winners, #participants)`. */
  function WinnerCount(winners: int, participants: nat): (k: int)
    ensures k <= winners && k <= participants
    ensures k == winners || k == participants
  {
    if winners < participants then winners else participants
  }

  /** The sample the draw may be given for these participants. */
  predicate SampleFits(ps: seq<Participant>, winners: int, slots: seq<nat>)
  {
    ValidSample(slots, |Pool(ps)|, WinnerCount(winners, |ps|))
  }

  /** The winners end_giveaway records for `slots`. */
  function DrawWinners(ps: seq<Participant>, winners: int, slots: seq<nat>): (r: seq<UserId>)
    requires SampleFits(ps, winners, slots)
    ensures NoDuplicates(r)
    ensures forall u :: u in r ==> IsParticipant(ps, u)
    ensures |r| <= WinnerCount(winners, |ps|)
    ensures |ps| > 0 && winners >= 1 ==> |r| >= 1
    ensures forall j :: 0 <= j < |slots| ==> Pool(ps)[slots[j]] in r
    ensures forall u :: u in r ==> exists j :: 0 <= j < |slots| && Pool(ps)[slots[j]] == u
  {
    var pool := Pool(ps);
    var picked := Picked(pool, slots);
    var r := Dedup(picked);
    forall u | u in r ensures exists j :: 0 <= j < |slots| && pool[slots[j]] == u {
      var j :| 0 <= j < |picked| && picked[j] == u;
    }
    forall u | u in r ensures IsParticipant(ps, u) {
      PoolMembers(ps, u);
      var i :| 0 <= i < |ps| && ps[i].user == u && ps[i].entries > 0;
      assert Users(ps)[i] == u;
    }
    assert |ps| > 0 && winners >= 1 ==> picked[0] in r;
    r
  }

  /** Without extra entries (every participant holding one entry) nothing is
      lost to deduplication: exactly `min(winners, #participants)` winners,
      in sampling order. */
  lemma UnweightedDrawIsFull(ps: seq<Participant>, winners: int, slots: seq<nat>)
    requires NoDuplicates(Users(ps))
    requires forall i :: 0 <= i < |ps| ==> ps[i].entries == 1
    requires SampleFits(ps, winners, slots)
    ensures DrawWinners(ps, winners, slots) == Picked(Pool(ps), slots)
    ensures |DrawWinners(ps, winners, slots)| == WinnerCount(winners, |ps|)
  {
    var pool := Pool(ps);
    PoolIsUsers(ps);
    var picked := Picked(pool, slots);
    forall a, b | 0 <= a < b < |picked| ensures picked[a] != picked[b] {
      assert slots[a] != slots[b];
    }
    DedupOfDistinct(picked);
  }

  /** With one entry each, the pool is the participant list itself. */
  lemma {:induction false} PoolIsUsers(ps: seq<Participant>)
    requires forall i :: 0 <= i < |ps| ==> ps[i].entries == 1
    ensures Pool(ps) == Users(ps)
  {
    if ps != [] {
      var init := ps[..|ps| - 1];
      PoolIsUsers(init);
      assert Users(ps) == Users(init) + [ps[|ps| - 1].user];
    }
  }

  /** Deduplicating instead of re-sampling can hand out fewer prizes than
      there are winner places: with A holding two entries and B one, two
      winner places and the sample [0, 1], both slots belong to A. */
  lemma DrawCanFallShort()
    ensures var ps := [Participant("A", 2), Participant("B", 1)];
            SampleFits(ps, 2, [0, 1]) && DrawWinners(ps, 2, [0, 1]) == ["A"]
  {
    var ps := [Participant("A", 2), Participant("B", 1)];
    ExamplePool();
    ExampleDedup(Picked(Pool(ps), [0, 1]));
  }

  /** The pool of the example: "A" twice, then "B". */
  lemma ExamplePool()
    ensures Pool([Participant("A", 2), Participant("B", 1)]) == ["A", "A", "B"]
  {
    var ps := [Participant("A", 2), Participant("B", 1)];
    assert ps[..1] == [Participant("A", 2)];
    assert ps[..1][..0] == [];
    assert Repeat("A", 2) == ["A", "A"] by {
      assert Repeat("A", 1) == ["A"];
    }
    assert Pool(ps[..1]) == ["A", "A"];
    assert Repeat("B", 1) == ["B"];
  }

  /** Deduplicating the example's two picks of "A". */
  lemma ExampleDedup(picked: seq<UserId>)
    requires picked == ["A", "A"]
    ensures Dedup(picked) == ["A"]
  {
    assert picked[..1] == ["A"];
    assert picked[..1][..0] == [];
    assert Dedup(picked[..1]) == ["A"];
  }

  // ---------------------------------------------------------------------
  // The loops of end_giveaway

  /** The `weighted_participants` loop. */
  method BuildPool(ps: seq<Participant>) returns (pool: seq<UserId>)
    ensures pool == Pool(ps)
  {
    pool := [];
    var i := 0;
    while i < |ps|
      invariant 0 <= i <= |ps|
      invariant pool == Pool(ps[..i])
    {
      var entries := Repeat(ps[i].user, ps[i].entries);
      pool := pool + entries;
      assert ps[..i + 1][..i] == ps[..i];
      i := i + 1;
    }
    assert ps[..|ps|] == ps;
  }

  /** The `unique_winners` / `seen` loop. */
  method RemoveDuplicates(winners: seq<UserId>) returns (unique: seq<UserId>)
    ensures unique == Dedup(winners)
  {
    unique := [];
    var seen: set<UserId> := {};
    var i := 0;
    while i < |winners|
      invariant 0 <= i <= |winners|
      invariant unique == Dedup(winners[..i])
      invariant forall x :: x in seen <==> x in unique
    {
      var w := winners[i];
      assert winners[..i + 1][..i] == winners[..i];
      if w !in seen {
        unique := unique + [w];
        seen := seen + {w};
      }
      i := i + 1;
    }
    assert winners[..|winners|] == winners;
  }
}
