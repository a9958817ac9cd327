/** The small in-place updates of the economy: buying a shop item, the
    staff command that takes currency away, and the staff command that
    takes premium auction slots away. */
module Economy {
  import opened Records

  type ItemName = string

  /** A member's premium auction slots. `hasManual` is false for a record
      created by the premium auction path, which stores only the total and
      used counts; `manual` then stands for the absent key and is ignored. */
  datatype Slots = Slots(total: int, used: int, manual: int, hasManual: bool)

  datatype Purchase =
    | Ignored                      // the "none" placeholder was selected
    | InsufficientFunds(balance: int, price: int)
    | Bought

  datatype StaffOutcome =
    | NotStaff
    | NotPositive
    | MissingManual                // the record has no manual count: the update raises KeyError
    | Applied(amount: int)

  /** The new balance after removing `amount`: never below zero. */
  function ClampedBalance(balance: int, amount: int): (r: int)
    ensures r >= 0
    ensures balance >= 0 && amount >= 0 ==> balance - r == if amount < balance then amount else balance
  {
    if balance - amount > 0 then balance - amount else 0
  }

  /** The inventory with one more `item`; an item not held counts as 0. */
  function AddOne(inv: map<ItemName, int>, item: ItemName): (r: map<ItemName, int>)
    ensures r.Keys == inv.Keys + {item}
    ensures r[item] == (if item in inv then inv[item] else 0) + 1
    ensures forall i :: i in inv && i != item ==> r[i] == inv[i]
  {
    inv[item := (if item in inv then inv[item] else 0) + 1]
  }

  /** Removing `amount` manual slots: no more than the member was given by
      hand, taken from both the manual and the total count. */
  function RemoveManual(s: Slots, amount: int): (r: Slots)
    ensures r.used == s.used && r.hasManual == s.hasManual
    ensures s.manual - r.manual == s.total - r.total
    ensures s.manual >= 0 && amount >= 0 ==>
              0 <= r.manual <= s.manual
              && s.manual - r.manual == if amount < s.manual then amount else s.manual
  {
    var removed := if amount < s.manual then amount else s.manual;
    s.(total := s.total - removed, manual := s.manual - removed)
  }

  /** Removing slots twice removes at most what was given by hand, and the
      manual count reaches zero exactly when the two requests together
      cover it. */
  lemma RemoveManualTwice(s: Slots, a: int, b: int)
    requires s.manual >= 0 && a >= 1 && b >= 1
    ensures var r := RemoveManual(RemoveManual(s, a), b);
            && r.manual == (if a + b < s.manual then s.manual - (a + b) else 0)
            && r == RemoveManual(s, a + b)
  {
  }

  /** Removing currency twice is removing the sum once. */
  lemma ClampedTwice(balance: int, a: int, b: int)
    requires balance >= 0 && a >= 0 && b >= 0
    ensures ClampedBalance(ClampedBalance(balance, a), b) == ClampedBalance(balance, a + b)
  {
  }

  class Ledger {
    var balances: map<UserId, int>
    var inventories: map<UserId, map<ItemName, int>>
    var premiumSlots: map<UserId, Slots>

    /** Balances never go negative; manual slot counts never go negative. */
    ghost predicate Valid()
      reads this
    {
      && (forall u :: u in balances ==> balances[u] >= 0)
      && (forall u :: u in premiumSlots ==> premiumSlots[u].manual >= 0)
    }

    constructor ()
      ensures Valid()
      ensures balances == map[] && inventories == map[] && premiumSlots == map[]
    {
      balances := map[];
      inventories := map[];
      premiumSlots := map[];
    }

    /** ensure_user_in_stats, for the balance and inventory tables: a
        member seen for the first time gets a zero balance and an empty
        inventory; known members are left as they are. */
    method EnsureUser(u: UserId)
      requires Valid()
      modifies this`balances, this`inventories
      ensures Valid()
      ensures balances == if u in old(balances) then old(balances) else old(balances)[u := 0]
      ensures inventories == if u in old(inventories) then old(inventories) else old(inventories)[u := map[]]
      ensures u in balances && balances[u] == if u in old(balances) then old(balances)[u] else 0
      ensures u in inventories && inventories[u] == if u in old(inventories) then old(inventories)[u] else map[]
    {
      if u !in balances {
        balances := balances[u := 0];
      }
      if u !in inventories {
        inventories := inventories[u := map[]];
      }
    }

    /** ShopBuyView.buy_item: a member who can afford `price` pays it and
        receives one more `item`; otherwise nothing but the member's
        default records is created. */
    method Buy(u: UserId, item: ItemName, price: int) returns (r: Purchase)
      requires Valid()
      modifies this`balances, this`inventories
      ensures Valid()
      ensures item == "none" ==> r == Ignored && balances == old(balances) && inventories == old(inventories)
      ensures item != "none" ==>
                var balance := if u in old(balances) then old(balances)[u] else 0;
                r == (if balance < price then InsufficientFunds(balance, price) else Bought)
      ensures r.InsufficientFunds? ==>
                && balances == (if u in old(balances) then old(balances) else old(balances)[u := 0])
                && inventories == (if u in old(inventories) then old(inventories) else old(inventories)[u := map[]])
      ensures r == Bought ==>
                var balance := if u in old(balances) then old(balances)[u] else 0;
                var inv := if u in old(inventories) then old(inventories)[u] else map[];
                && balances == old(balances)[u := balance - price]
                && inventories == old(inventories)[u := AddOne(inv, item)]
    {
      if item == "none" {
        return Ignored;
      }
      EnsureUser(u);
      var balance := balances[u];
      if balance < price {
        return InsufficientFunds(balance, price);
      }
      balances := balances[u := balance - price];
      inventories := inventories[u := AddOne(inventories[u], item)];
      r := Bought;
    }

    /** balance_remove: staff only, a positive amount, and the balance
        stops at zero. */
    method BalanceRemove(isStaff: bool, u: UserId, amount: int) returns (r: StaffOutcome)
      requires Valid()
      modifies this`balances, this`inventories
      ensures Valid()
      ensures !isStaff ==> r == NotStaff
      ensures isStaff && amount <= 0 ==> r == NotPositive
      ensures r.Applied? <==> isStaff && amount > 0
      ensures !r.Applied? ==> balances == old(balances) && inventories == old(inventories)
      ensures r.Applied? ==>
                var balance := if u in old(balances) then old(balances)[u] else 0;
                && r.amount == amount
                && balances == old(balances)[u := ClampedBalance(balance, amount)]
                && inventories == if u in old(inventories) then old(inventories) else old(inventories)[u := map[]]
    {
      if !isStaff {
        return NotStaff;
      }
      if amount <= 0 {
        return NotPositive;
      }
      EnsureUser(u);
      balances := balances[u := ClampedBalance(balances[u], amount)];
      r := Applied(amount);
    }

    /** removeslots: staff only, a positive amount; takes away at most the
        member's manual slots and reports how many were removed. A record
        without a manual count makes the command fail with nothing changed. */
    method RemoveSlots(isStaff: bool, u: UserId, amount: int) returns (r: StaffOutcome)
      requires Valid()
      modifies this`premiumSlots
      ensures Valid()
      ensures !isStaff ==> r == NotStaff
      ensures isStaff && amount <= 0 ==> r == NotPositive
      ensures r == MissingManual <==>
                isStaff && amount > 0 && u in old(premiumSlots) && !old(premiumSlots)[u].hasManual
      ensures r.Applied? <==>
                isStaff && amount > 0 && (u in old(premiumSlots) ==> old(premiumSlots)[u].hasManual)
      ensures !r.Applied? ==> premiumSlots == old(premiumSlots)
      ensures r.Applied? ==>
                var s := if u in old(premiumSlots) then old(premiumSlots)[u] else Slots(0, 0, 0, true);
                && r.amount == (if amount < s.manual then amount else s.manual)
                && premiumSlots == old(premiumSlots)[u := RemoveManual(s, amount)]
    {
      if !isStaff {
        return NotStaff;
      }
      if amount <= 0 {
        return NotPositive;
      }
      if u !in premiumSlots {
        premiumSlots := premiumSlots[u := Slots(0, 0, 0, true)];
      }
      var s := premiumSlots[u];
      if !s.hasManual {
        // `.get` reads 0, but the in-place subtraction raises KeyError
        return MissingManual;
      }
      var removed := if amount < s.manual then amount else s.manual;
      premiumSlots := premiumSlots[u := s.(total := s.total - removed, manual := s.manual - removed)];
      r := Applied(removed);
    }
  }
}
