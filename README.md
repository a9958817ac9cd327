# Giveaway lifecycle of a Discord community bot

This project models the giveaway lifecycle of the bot in `main.py`:

- setting up a giveaway (basic info, required and bypass roles, extra-entry
  rules, a level requirement);
- publishing it as an active record;
- members joining it through the role gate and the level gate;
- the scheduler ending expired giveaways and drawing weighted winners;
- winners claiming their prizes;
- the report of unclaimed prizes.

It also models the level formula the level gate uses, and a few small
in-place updates elsewhere in the bot: a shop purchase, the staff commands
that remove currency and premium auction slots, and the tier-list edits.

The bot keeps its state in module-level dictionaries that its handlers
change in place. The model therefore uses classes whose fields are those
dictionaries:

- `GiveawayStore` holds `giveaways_data`. A Python dict remembers insertion
  order, so the store keeps a `records` map and an `order` sequence.
- `GiveawaySetup` holds the draft `giveaway_data` of the setup view.
- `Ledger` holds the balance, inventory and premium-slot tables.
- `TierList` holds `tier_data`.

Each method is proved against a pure function on the old state (`Enroll`,
`Finish`, `Tick`, `ClaimAll`, `Report`, `Activate`, `Moved`, ...). The
properties the bot relies on are proved about those functions as lemmas, and
as the invariants `Valid()` that every method preserves:

- participants are distinct and each holds at least one entry;
- winners are distinct participants;
- claims are distinct winners;
- a record only moves from active to ended, and a winners list, once set,
  is kept.

Inputs the bot gets from the outside world are parameters of the model:

- the current time;
- the member's roles and experience points;
- whether the guild and the announcement channel can be found;
- whether a role id exists;
- whether the caller has the staff role;
- the item price from the shop catalogue.

The random sample `random.sample(pool, k)` is a parameter too: a list of `k`
distinct slot indices into the weighted pool.

Three behaviours of the code are easy to miss, and the model keeps them:

- **Rejoining can lower entries.** A join sets the member's entries to the
  first matching extra-entry rule, even when that count is lower than the
  one the member already had (`Giveaways.RejoinCanLowerEntries`).
- **The draw can fall short.** The draw removes duplicate winners and does
  not sample again. With weighted entries it can therefore name fewer
  winners than `min(winners, participants)` (`Draw.DrawWinners`,
  `Draw.DrawCanFallShort`). Without extra entries it never falls short
  (`Draw.UnweightedDrawIsFull`).
- **No winners list without participants.** A giveaway that ends with no
  participants, or whose channel cannot be found, gets no winners list at
  all, not an empty one (`Giveaways.Finish`).

## Model

| member | source | states |
|---|---|---|
| Levels.Level | main.py:156-157 | the level is the largest L with 100·L² ≤ xp (the integer square root of xp div 100); negative xp is level 0 |
| Levels.XpForLevel | main.py:159-160 | the threshold of a level is a non-negative multiple of 100, zero only for level 0 |
| Levels.LevelOfXpForLevel | main.py:156-160 | reaching the xp threshold of level L puts a member exactly at level L |
| Levels.LevelMonotone | main.py:156-157 | more experience never gives a lower level |
| Levels.LevelReachedIff | main.py:156-160 | for xp ≥ 0, a member is at level L or above exactly when xp ≥ calculate_xp_for_level(L) |
| Records.Lookup | main.py:1956-1958 | finds the entries of a member exactly when the member has joined, and those entries are the recorded ones |
| Records.Upsert | main.py:1957-1965 | dict assignment: a member already present keeps their position and gets the new count; a new member is appended; everyone else is untouched |
| Records.UpsertLookup | main.py:1957-1965 | on distinct members (as dict keys are), assignment keeps them distinct, makes the member map to the new count and leaves every other member's count as it was |
| Records.UpsertValid | main.py:1956-1966 | upserting a positive count keeps participants distinct with ≥ 1 entry, records the count for that member and changes nobody else |
| Draw.Repeat | main.py:2955-2956 | `[u] * n` is n copies of u, none for n ≤ 0 |
| Draw.Pool | main.py:2954-2956 | the weighted pool has one slot per entry |
| Draw.PoolCoversParticipants | main.py:2954-2959 | with ≥ 1 entry each, the pool has at least as many slots as participants, so `min(winners, participants)` slots can always be sampled |
| Draw.PoolMembers | main.py:2954-2956 | a member is in the pool exactly when they are a participant with a positive entry count |
| Draw.PoolWeight | main.py:2954-2956 | each participant occupies exactly as many pool slots as their entries |
| Draw.Picked | main.py:2959 | the sample is the pool members at the sampled slots, in sampling order |
| Draw.PickedWithinPool | main.py:2959 | `random.sample` draws without replacement: the sampled members, counted with multiplicity, are a sub-multiset of the pool |
| Draw.PickedAtMostEntries | main.py:2954-2959 | a participant is sampled at most as many times as they hold entries |
| Draw.Dedup | main.py:2961-2967 | removing duplicates yields a repeat-free list with exactly the same members, no longer than the input |
| Draw.DedupFirstSeen | main.py:2961-2967 | deduplication keeps members in the order of their first occurrence: a member listed before another in the result occurs in the input before the other's every occurrence |
| Draw.DedupOfDistinct | main.py:2961-2967 | a sample without repeats passes through deduplication unchanged |
| Draw.WinnerCount | main.py:2958 | the number of slots sampled is `min(winners, participants)` |
| Draw.DrawWinners | main.py:2954-2969 | winners are distinct participants, at most `min(winners, participants)`, at least one when anybody joined, and a member is a winner exactly when one of the sampled slots holds them |
| Draw.UnweightedDrawIsFull | main.py:2954-2969 | with one entry each, exactly `min(winners, participants)` winners are drawn, in sampling order |
| Draw.DrawCanFallShort | main.py:2958-2969 | with A holding two entries and B one, a draw for two winners can name only A |
| Draw.BuildPool | main.py:2953-2956 | the `weighted_participants` loop builds exactly the weighted pool |
| Draw.RemoveDuplicates | main.py:2961-2967 | the `unique_winners`/`seen` loop keeps the first occurrence of each winner in order |
| Giveaways.GateCheck | main.py:1933-1954 | refused for role exactly when required roles exist and none is held; refused for level exactly when the role gate passes, a positive level is required, the member is below it and holds no bypass role |
| Giveaways.Gate | main.py:1933-1954 | join_giveaway's nested role, level and bypass checks refuse exactly as `GateCheck` says |
| Giveaways.LevelGateByXp | main.py:1941-1954 | past the role gate, a member with non-negative xp passes exactly when no level is required, their xp reaches the level's threshold, or they hold a bypass role |
| Giveaways.BypassRoleAdmitsLowLevel | main.py:1941-1954 | a level-3 member is admitted to a level-10 giveaway with the bypass role and refused without it |
| Giveaways.FirstMatch | main.py:1960-1966 | the bonus is the entry count of the first rule in list order whose role the member holds, and absent exactly when no rule matches |
| Giveaways.JoinEntries | main.py:1956-1966 | the extra-entry loop yields the first matching rule's count, else the previous count, else 1 |
| Giveaways.Enroll | main.py:1956-1966 | a join changes only the participants: the member's count becomes the first matching rule's count, else their previous count, else 1, and every other member's count is unchanged |
| Giveaways.EnrollEntries | main.py:1956-1966 | a join keeps the record well formed and records ≥ 1 entry: the first matching rule's count, else the previous count, else 1; nobody else changes |
| Giveaways.RejoinCanLowerEntries | main.py:1956-1966 | a member who joined with a 5-entry role and rejoins holding only a 2-entry role is lowered to 2 |
| Giveaways.Finish | main.py:2930-2969 | ending sets the status to ended and changes nothing but the winners list; without a channel or participants no winners list is set; otherwise the list holds distinct participants, at most `min(winners, participants)` and at least one, and a member is on it exactly when one of the sampled slots holds them |
| Giveaways.FinishWellFormed | main.py:2930-2969 | ending keeps every record invariant, including winners ⊆ participants |
| Giveaways.Tick | main.py:2920-2928 | a tick keeps every id; with the guild reachable every due record becomes the ended record with its draw (`Finish`, as end_giveaway leaves it); every other record is untouched |
| Giveaways.TickIdempotent | main.py:2920-2937 | a second tick at the same time changes nothing, so no giveaway is drawn twice |
| Giveaways.TickTable | main.py:2920-2969 | a tick keeps the table invariant, and no record returns to active, moves its end time or loses its winners list |
| Giveaways.ClaimFor | main.py:2565-2576 | the caller is in the claims afterwards exactly when they were before or won this ended giveaway; nobody else's claim changes; claims only grow and stay distinct winners |
| Giveaways.ClaimTwice | main.py:2559-2581 | a repeated claim changes nothing and finds nothing to claim |
| Giveaways.ClaimAll | main.py:2565-2576 | claiming changes only claim lists: the caller is added to those of the ended giveaways they won, nobody else is, and the table changes exactly when there was a prize to claim |
| Giveaways.ClaimAllTable | main.py:2565-2576 | claiming keeps the table invariant and only adds claims |
| Giveaways.Unclaimed | main.py:2591 | the unclaimed winners are exactly the winners not claimed, without repeats |
| Giveaways.UnclaimedCount | main.py:2588-2595 | with a consistent ledger the number of unclaimed winners is #winners − #claims |
| Giveaways.ReportLine | main.py:2588-2597 | a giveaway gets a line exactly when it has ended with a winners list and some winner has not claimed; the line carries its name and a positive count |
| Giveaways.Report | main.py:2586-2597 | the report has no more lines than giveaways, each with a positive count (which lines: `Giveaways.ReportMembers`) |
| Giveaways.ReportLineCount | main.py:2588-2597 | a giveaway is reported exactly when it ended with more winners than claims, and the line carries its name and that difference |
| Giveaways.ReportMembers | main.py:2586-2597 | the report holds exactly the report lines of the giveaways in the table |
| Giveaways.EvolvesTransitive | main.py:2930-2937 | the per-record rules (never back to active, winners list kept, claims only grow) hold across any sequence of operations |
| Giveaways.GiveawayStore.Add | main.py:1660-1663 | a new giveaway is stored under its fresh id and appended to the table order |
| Giveaways.GiveawayStore.Join | main.py:1925-1972 | a missing or non-active giveaway is refused and nothing changes; a gate refusal changes nothing; a successful join stores the enrolled record and reports its entry count (≥ 1) |
| Giveaways.GiveawayStore.EndGiveaway | main.py:2930-2969 | only an active record changes, and it becomes the ended record with its draw; a second call does nothing |
| Giveaways.GiveawayStore.CheckGiveaways | main.py:2920-2928 | the loop over the table ends exactly the due giveaways |
| Giveaways.GiveawayStore.Claim | main.py:2559-2581 | the loop adds the caller to every ended giveaway they won and have not claimed, and reports whether there was any |
| Giveaways.GiveawayStore.UnclaimedReport | main.py:2583-2597 | the loop returns the report lines in table order |
| Setup.WithoutRole | main.py:1880-1884 | the filtered rules are exactly the old rules for other roles, and stay valid |
| Setup.ReplaceRule | main.py:1880-1889 | re-adding a role leaves exactly one rule for it, the new one, last; all other rules are kept and the list stays valid |
| Setup.WithoutRoleKeepsOrder | main.py:1880-1884 | the filter keeps the surviving rules in their original relative order |
| Setup.FilterKeepsBonus | main.py:1880-1884 | for a member without the filtered role, the first matching rule is the same before and after the filter |
| Setup.ReplaceKeepsBonus | main.py:1880-1889 | replacing a role's rule leaves the join bonus of every member without that role unchanged |
| Setup.FirstMatchAppend | main.py:1960-1966 | over two concatenated rule lists the first match is the first list's match, else the second's |
| Setup.GiveawaySetup.constructor | main.py:1553-1561 | a new draft has no basic info, empty required-role, bypass-role and extra-entry lists, and level 0 (an unset level reads as 0) |
| Setup.Activate | main.py:1624-1635 | the published record is active, ends `hours·3600` seconds after now, has no participants, winners or claims, and carries the draft's settings |
| Setup.ActivateWellFormed | main.py:1624-1635 | a validated draft activates into a well-formed record that is not due for at least an hour |
| Setup.GiveawaySetup.SubmitBasic | main.py:1712-1730 | a non-positive duration or winner count is refused and changes nothing; otherwise the basic info is set |
| Setup.GiveawaySetup.AddRole | main.py:1821-1841 | an unknown role is refused, then a role already listed is refused; otherwise the role is appended to its own list only |
| Setup.GiveawaySetup.AddExtraEntry | main.py:1864-1892 | a non-positive count is refused first, then an unknown role; otherwise the role's rule is replaced by the new one |
| Setup.GiveawaySetup.SetLevel | main.py:1907-1917 | a negative level is refused; otherwise the level is set |
| Setup.GiveawaySetup.Create | main.py:1586-1663 | creation is refused until the basic info is set; otherwise the activated record is added under the fresh id |
| Economy.ClampedBalance | main.py:2758-2760 | the new balance is never negative, and exactly `min(amount, balance)` is taken |
| Economy.ClampedTwice | main.py:2758-2760 | removing a then b is removing a + b |
| Economy.AddOne | main.py:890-892 | the inventory gains one of the item (starting from 0) and nothing else changes |
| Economy.RemoveManual | main.py:2715-2719 | exactly `min(amount, manual)` slots are taken from both the manual and the total count; the manual count stays ≥ 0; used slots are unchanged |
| Economy.RemoveManualTwice | main.py:2715-2719 | two removals together are one removal of the sum |
| Economy.Ledger.EnsureUser | main.py:162-174 | a new member gets a zero balance and an empty inventory; known members are untouched |
| Economy.Ledger.Buy | main.py:871-892 | the "none" placeholder is ignored; a member who cannot afford the price is refused; otherwise the price is debited and the item count rises by one; balances stay ≥ 0 |
| Economy.Ledger.BalanceRemove | main.py:2748-2760 | non-staff and non-positive amounts are refused with nothing changed; otherwise the balance is clamped at 0 |
| Economy.Ledger.RemoveSlots | main.py:2704-2719 | non-staff and non-positive amounts are refused; a record without a manual count fails with nothing changed; otherwise `min(amount, manual)` slots are removed and reported |
| TierList.RemoveFirst | main.py:482 | `list.remove` drops one occurrence (the first) and keeps the order of the rest |
| TierList.RemoveAfterAdd | main.py:474-482 | removing an item just appended to a list that did not hold it restores the list |
| TierList.RemoveKeepsDistinct | main.py:480-483 | removing from a repeat-free tier leaves it repeat-free and without the item |
| TierList.Added | main.py:470-475 | the add action creates the tier if needed and appends the item only if absent; other tiers are untouched; a repeat-free tier stays repeat-free |
| TierList.AddIdempotent | main.py:474-475 | adding twice is adding once |
| TierList.Removed | main.py:470-483 | the remove action leaves a listed item's tier as `list.remove` does (first occurrence dropped, order kept) and an unlisted item's tier as it was; other tiers are untouched |
| TierList.RemoveUndoesAdd | main.py:470-483 | adding an absent item and then removing it gives the tier back |
| TierList.Moved | main.py:537-547 | the move creates both tiers; when the source lists the item, its first occurrence leaves the source and the item is appended to the target (within one tier: moved to the end); otherwise nothing moves; other tiers are untouched |
| TierList.MoveConserves | main.py:545-547 | a move loses and invents nothing: the two tiers together hold the same items |
| TierList.MoveCanDuplicate | main.py:545-547 | moving an item into a tier that already lists it leaves it there twice |
| TierList.TierList.Add | main.py:466-478 | the modal's add reports whether the item was added and leaves the table as `Added` says |
| TierList.TierList.Remove | main.py:480-486 | the modal's remove reports whether the item was found and leaves the table as `Removed` says |
| TierList.TierList.Move | main.py:532-550 | a non-staff caller changes nothing; otherwise the table is as `Moved` says, and the result says whether the item was found |

## Left out

- Discord itself: views, buttons, modals, embeds, messages, mentions and
  help pages. Only the checks and state changes behind them are modelled.
- JSON persistence (`save_json`, `load_json`, backups). The model's state is
  the in-memory dictionaries.
- Asynchronous scheduling. `check_giveaways` runs every minute and handlers
  may interleave at `await` points. The model takes `now` as a parameter and
  runs each operation atomically, one after another.
- The random source. `random.sample` becomes a caller-supplied list of
  distinct, in-range slot indices of the right length.
- Parsing of modal text into integers (`int(...)` and its `ValueError`
  reply). The setup methods receive integers that have already been parsed.
  The `.strip()` of tier-list item names is left out for the same reason.
- The `member_stats` record that `ensure_user_in_stats` creates for a
  member seen for the first time. `Economy.Ledger.EnsureUser` models only
  its balance and inventory defaults, on the paths of the ledger
  (`Buy`, `BalanceRemove`). During a join with a level requirement the
  function runs as well, but the giveaway store takes the member's xp as a
  parameter and tracks none of these tables, so the defaults it creates
  there are not modelled.
- Levels.Level: computed with exact integer arithmetic. The bot computes
  `int(math.sqrt(xp / 100))` in floating point, which can differ for very
  large xp.
- Setup.GiveawaySetup.Create: the fresh `uuid4` id is a parameter that must
  not be in the table. The announcement message and `message_id` are left
  out. The bot stores the draft dict itself, so later edits through a stale
  setup view would alias the stored record. The model copies the draft
  instead.
- Giveaways.GiveawayStore.Claim: the loop edits a local copy of the table
  and writes it back once at the end, where the bot edits each record in
  place. No other handler runs during the loop, so the outcome is the same.
- The "creating" status of a draft. It never reaches the table, so stored
  records are only active or ended.
- The rule that the requirements buttons open only after the basic info is
  set. This is a UI gate and is not checked in the modals.
- Giveaway cleanup, embed colours and images (the appearance modal), the
  "view info" button, and the top-10 cut of the unclaimed report's display.
- Economy.Ledger.Buy: the shop and item lookup in `shops_data` is left out.
  The price is a parameter, because the select menu only offers listed
  items. Item prices are checked non-negative when items are created, but
  the balance invariant holds without that assumption.
- Staff permission (`has_staff_role`) is a boolean parameter. It gates the
  tier list through its management view, so the modal's add and remove
  actions do not check it.
