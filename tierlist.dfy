/** The tier list: named tiers, each an ordered list of item names, edited
    in place by the add/remove modal and the move command. */
module TierList {
  import opened Records

  type Tier = string
  type Item = string

  /** The position of the first occurrence of x. */
  function FirstIndex(s: seq<Item>, x: Item): (i: nat)
    requires x in s
    ensures i < |s| && s[i] == x && x !in s[..i]
  {
    if s[0] == x then 0
    else
      var j := FirstIndex(s[1..], x);
      assert s[..j + 1] == [s[0]] + s[1..][..j];
      j + 1
  }

  /** `list.remove(x)`: drop the first occurrence of x, keeping the order
      of everything else. */
  function RemoveFirst(s: seq<Item>, x: Item): (r: seq<Item>)
    requires x in s
    ensures |r| == |s| - 1
    ensures multiset(r) == multiset(s) - multiset{x}
    ensures var i := FirstIndex(s, x); r[..i] == s[..i] && r[i..] == s[i + 1..]
  {
    var i := FirstIndex(s, x);
    assert s == s[..i] + [s[i]] + s[i + 1..];
    s[..i] + s[i + 1..]
  }

  /** Removing what was just appended to a list not holding it restores the list. */
  lemma RemoveAfterAdd(s: seq<Item>, x: Item)
    requires x !in s
    ensures RemoveFirst(s + [x], x) == s
  {
    var i := FirstIndex(s + [x], x);
    assert i == |s| by {
      assert forall k :: 0 <= k < |s| ==> (s + [x])[k] == s[k];
    }
    assert (s + [x])[..|s|] == s;
  }

  /** Removing from a list without repeats leaves a list without repeats
      that no longer holds the item. */
  lemma RemoveKeepsDistinct(s: seq<Item>, x: Item)
    requires x in s && NoDuplicates(s)
    ensures NoDuplicates(RemoveFirst(s, x)) && x !in RemoveFirst(s, x)
  {
    var r := RemoveFirst(s, x);
    var i := FirstIndex(s, x);
    forall k | 0 <= k < |r| ensures r[k] == s[Shift(k, i)] {
      if k < i {
        assert r[k] == r[..i][k];
      } else {
        assert r[k] == r[i..][k - i];
      }
    }
    forall a, b | 0 <= a < b < |r| ensures r[a] != r[b] {
      assert r[a] == s[Shift(a, i)] && r[b] == s[Shift(b, i)];
    }
    forall k | 0 <= k < |r| ensures r[k] != x {
      assert r[k] == s[Shift(k, i)];
    }
  }

  /** Position k of a list with position i removed is position Shift(k, i) of the original. */
  function Shift(k: nat, i: nat): nat
  {
    if k < i then k else k + 1
  }

  /** The list of a tier; a tier never written reads as empty. */
  function ItemsOf(tiers: map<Tier, seq<Item>>, t: Tier): seq<Item>
  {
    if t in tiers then tiers[t] else []
  }

  /** The table after the add action. */
  function Added(tiers: map<Tier, seq<Item>>, t: Tier, item: Item): (r: map<Tier, seq<Item>>)
    ensures r.Keys == tiers.Keys + {t}
    ensures forall u :: u in tiers && u != t ==> r[u] == tiers[u]
    ensures item in r[t]
    ensures item in ItemsOf(tiers, t) ==> r[t] == ItemsOf(tiers, t)
    ensures item !in ItemsOf(tiers, t) ==> r[t] == ItemsOf(tiers, t) + [item]
    ensures NoDuplicates(ItemsOf(tiers, t)) ==> NoDuplicates(r[t])
  {
    var items := ItemsOf(tiers, t);
    tiers[t := if item in items then items else items + [item]]
  }

  /** The table after the remove action. */
  function Removed(tiers: map<Tier, seq<Item>>, t: Tier, item: Item): (r: map<Tier, seq<Item>>)
    ensures r.Keys == tiers.Keys + {t}
    ensures forall u :: u in tiers && u != t ==> r[u] == tiers[u]
    ensures item !in ItemsOf(tiers, t) ==> r[t] == ItemsOf(tiers, t)
    ensures item in ItemsOf(tiers, t) ==> r[t] == RemoveFirst(ItemsOf(tiers, t), item)
    ensures item in ItemsOf(tiers, t) ==> multiset(r[t]) == multiset(ItemsOf(tiers, t)) - multiset{item}
    ensures NoDuplicates(ItemsOf(tiers, t)) ==> NoDuplicates(r[t]) && item !in r[t]
  {
    var items := ItemsOf(tiers, t);
    if item in items then
      RemoveKeepsDistinctIf(items, item);
      tiers[t := RemoveFirst(items, item)]
    else tiers[t := items]
  }

  /** RemoveKeepsDistinct, for lists that may hold repeats. */
  lemma RemoveKeepsDistinctIf(s: seq<Item>, x: Item)
    requires x in s
    ensures NoDuplicates(s) ==> NoDuplicates(RemoveFirst(s, x)) && x !in RemoveFirst(s, x)
  {
    if NoDuplicates(s) {
      RemoveKeepsDistinct(s, x);
    }
  }

  /** Adding an item a tier did not list and then removing it gives the
      tier back as it was. */
  lemma RemoveUndoesAdd(tiers: map<Tier, seq<Item>>, t: Tier, item: Item)
    requires item !in ItemsOf(tiers, t)
    ensures Removed(Added(tiers, t, item), t, item) == tiers[t := ItemsOf(tiers, t)]
  {
    var items := ItemsOf(tiers, t);
    var a := tiers[t := items + [item]];
    assert Added(tiers, t, item) == a;
    assert ItemsOf(a, t) == items + [item];
    assert item in items + [item];
    RemoveAfterAdd(items, item);
    var r := Removed(Added(tiers, t, item), t, item);
    assert r == a[t := RemoveFirst(items + [item], item)];
    assert r == a[t := items];
    Overwrite(tiers, t, items + [item], items);
  }

  lemma Overwrite(m: map<Tier, seq<Item>>, t: Tier, x: seq<Item>, y: seq<Item>)
    ensures m[t := x][t := y] == m[t := y]
  {
  }

  /** Adding twice adds once. */
  lemma AddIdempotent(tiers: map<Tier, seq<Item>>, t: Tier, item: Item)
    ensures Added(Added(tiers, t, item), t, item) == Added(tiers, t, item)
  {
  }

  /** The table after the move command: the first occurrence leaves the
      source tier and the item is appended to the target tier, whether or
      not the target already lists it; both tiers exist afterwards. */
  function Moved(tiers: map<Tier, seq<Item>>, item: Item, from: Tier, to: Tier): (r: map<Tier, seq<Item>>)
    ensures r.Keys == tiers.Keys + {from, to}
    ensures forall u :: u in tiers && u != from && u != to ==> r[u] == tiers[u]
    ensures item !in ItemsOf(tiers, from) ==> r[from] == ItemsOf(tiers, from) && r[to] == ItemsOf(tiers, to)
    ensures item in ItemsOf(tiers, from) ==> |r[to]| > 0 && r[to][|r[to]| - 1] == item
    ensures item in ItemsOf(tiers, from) && from != to ==>
              r[from] == RemoveFirst(ItemsOf(tiers, from), item) && r[to] == ItemsOf(tiers, to) + [item]
    ensures item in ItemsOf(tiers, from) && from == to ==>
              r[to] == RemoveFirst(ItemsOf(tiers, to), item) + [item]
  {
    var src, dst := ItemsOf(tiers, from), ItemsOf(tiers, to);
    if item !in src then tiers[from := src][to := dst]
    else if from == to then tiers[to := RemoveFirst(src, item) + [item]]
    else tiers[from := RemoveFirst(src, item)][to := dst + [item]]
  }

  /** A move loses and invents no item: between them the two tiers hold
      what they held before (a move within one tier only reorders it). */
  lemma MoveConserves(tiers: map<Tier, seq<Item>>, item: Item, from: Tier, to: Tier)
    ensures var r := Moved(tiers, item, from, to);
            && (from != to ==>
                  multiset(r[from]) + multiset(r[to])
                  == multiset(ItemsOf(tiers, from)) + multiset(ItemsOf(tiers, to)))
            && (from == to ==> multiset(r[to]) == multiset(ItemsOf(tiers, to)))
  {
    var src, dst := ItemsOf(tiers, from), ItemsOf(tiers, to);
    var r := Moved(tiers, item, from, to);
    if item in src {
      if from == to {
        assert r[to] == RemoveFirst(src, item) + [item];
        ReorderConserves(src, item);
      } else {
        assert r[from] == RemoveFirst(src, item) && r[to] == dst + [item];
        TransferConserves(src, dst, item);
      }
    }
  }

  /** Moving an item to the end of its own list keeps the same items. */
  lemma ReorderConserves(s: seq<Item>, x: Item)
    requires x in s
    ensures multiset(RemoveFirst(s, x) + [x]) == multiset(s)
  {
    var rest := RemoveFirst(s, x);
    assert multiset(rest + [x]) == multiset(rest) + multiset{x};
  }

  /** Moving an item from one list to the end of another keeps the items of the two together. */
  lemma TransferConserves(s: seq<Item>, d: seq<Item>, x: Item)
    requires x in s
    ensures multiset(RemoveFirst(s, x)) + multiset(d + [x]) == multiset(s) + multiset(d)
  {
    assert multiset(d + [x]) == multiset(d) + multiset{x};
  }

  /** Creating the two tiers of a move when missing. */
  lemma SetDefaults(m: map<Tier, seq<Item>>, from: Tier, to: Tier, m2: map<Tier, seq<Item>>)
    requires m2.Keys == m.Keys + {from, to}
    requires forall t :: t in m2 ==> m2[t] == ItemsOf(m, t)
    ensures m2 == m[from := ItemsOf(m, from)][to := ItemsOf(m, to)]
  {
  }

  /** The in-place steps of a move, one dictionary write at a time. */
  lemma MoveSteps(m: map<Tier, seq<Item>>, item: Item, from: Tier, to: Tier)
    requires item in ItemsOf(m, from)
    ensures var m1 := m[from := ItemsOf(m, from)][to := ItemsOf(m, to)];
            var m2 := m1[from := RemoveFirst(m1[from], item)];
            m2[to := m2[to] + [item]] == Moved(m, item, from, to)
  {
    var src, dst := ItemsOf(m, from), ItemsOf(m, to);
    var m1 := m[from := src][to := dst];
    var m2 := m1[from := RemoveFirst(m1[from], item)];
    if from == to {
      assert m2[to := m2[to] + [item]] == m[to := RemoveFirst(src, item) + [item]];
    } else {
      assert m2[to := m2[to] + [item]] == m[from := RemoveFirst(src, item)][to := dst + [item]];
    }
  }

  /** Moving an item into a tier that already lists it leaves it there
      twice: unlike the add action, the move does not check the target. */
  lemma MoveCanDuplicate()
    ensures Moved(map["s" := ["X"], "a" := ["X"]], "X", "s", "a")["a"] == ["X", "X"]
  {
    assert "X" in ["X"];
  }

  class TierList {
    var tiers: map<Tier, seq<Item>>

    constructor ()
      ensures tiers == map[]
    {
      tiers := map[];
    }

    /** The modal's add action. */
    method Add(t: Tier, item: Item) returns (added: bool)
      modifies this
      ensures added <==> item !in ItemsOf(old(tiers), t)
      ensures tiers == Added(old(tiers), t, item)
    {
      if t !in tiers {
        tiers := tiers[t := []];
      }
      if item !in tiers[t] {
        tiers := tiers[t := tiers[t] + [item]];
        added := true;
      } else {
        added := false;
      }
    }

    /** The modal's remove action. */
    method Remove(t: Tier, item: Item) returns (removed: bool)
      modifies this
      ensures removed <==> item in ItemsOf(old(tiers), t)
      ensures tiers == Removed(old(tiers), t, item)
    {
      if t !in tiers {
        tiers := tiers[t := []];
      }
      if item in tiers[t] {
        tiers := tiers[t := RemoveFirst(tiers[t], item)];
        removed := true;
      } else {
        removed := false;
      }
    }

    /** tierlist_move: staff only. */
    method Move(isStaff: bool, item: Item, from: Tier, to: Tier) returns (moved: bool)
      modifies this
      ensures moved <==> isStaff && item in ItemsOf(old(tiers), from)
      ensures tiers == if isStaff then Moved(old(tiers), item, from, to) else old(tiers)
    {
      if !isStaff {
        return false;
      }
      ghost var src, dst := ItemsOf(tiers, from), ItemsOf(tiers, to);
      if from !in tiers {
        tiers := tiers[from := []];
      }
      if to !in tiers {
        tiers := tiers[to := []];
      }
      SetDefaults(old(tiers), from, to, tiers);
      if item in tiers[from] {
        tiers := tiers[from := RemoveFirst(tiers[from], item)];
        tiers := tiers[to := tiers[to] + [item]];
        MoveSteps(old(tiers), item, from, to);
        moved := true;
      } else {
        moved := false;
      }
    }
  }
}
