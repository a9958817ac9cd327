/** Experience levels: a member at `xp` experience points is at the largest
    level L with 100 * L * L <= xp; the giveaway level gate compares against it. */
module Levels {

  /** The integer square root of `n`: the largest r with r * r <= n. */
  function Isqrt(n: nat): (r: nat)
    ensures r * r <= n < (r + 1) * (r + 1)
  {
    RootFrom(n, 0)
  }

  /** The search for the root upwards from a candidate `c` already known
      not to overshoot. */
  function RootFrom(n: nat, c: nat): (r: nat)
    requires c * c <= n
    ensures c <= r && r * r <= n < (r + 1) * (r + 1)
    decreases n - c * c
  {
    if n < (c + 1) * (c + 1) then c else RootFrom(n, c + 1)
  }

  /** Squaring is strictly monotone on naturals. */
  lemma SquareLess(a: nat, b: nat)
    requires a * a < b * b
    ensures a < b
  {
    if a >= b {
      SquareMono(b, a);
    }
  }

  lemma SquareMono(a: nat, b: nat)
    requires a <= b
    ensures a * a <= b * b
  {
    assert a * a <= a * b;
    assert a * b <= b * b;
  }

  /** The two bounds of Isqrt determine it. */
  lemma {:induction false} IsqrtUnique(n: nat, r: nat)
    requires r * r <= n < (r + 1) * (r + 1)
    ensures Isqrt(n) == r
  {
    var s := Isqrt(n);
    SquareLess(s, r + 1);
    SquareLess(r, s + 1);
  }

  /** The level a member with `xp` experience points is at; negative xp counts as level 0. */
  function Level(xp: int): (l: nat)
    ensures xp >= 0 ==> 100 * (l * l) <= xp < 100 * ((l + 1) * (l + 1))
    ensures xp < 0 ==> l == 0
  {
    if xp >= 0 then
      var r := Isqrt(xp / 100);
      ScaleRoot(xp, r * r, (r + 1) * (r + 1));
      r
    else 0
  }

  /** Bounds on xp div 100 scale to bounds on xp. */
  lemma ScaleRoot(xp: nat, lo: int, hi: int)
    requires lo <= xp / 100 < hi
    ensures 100 * lo <= xp < 100 * hi
  {
  }

  /** The experience points at which `level` is reached. */
  function XpForLevel(level: int): (xp: int)
    ensures xp >= 0 && xp % 100 == 0
    ensures xp == 0 <==> level == 0
  {
    level * level * 100
  }

  /** Reaching the threshold of level L puts a member exactly at level L. */
  lemma LevelOfXpForLevel(level: nat)
    ensures Level(XpForLevel(level)) == level
  {
    var xp := XpForLevel(level);
    assert xp / 100 == level * level;
    assert (level + 1) * (level + 1) == level * level + 2 * level + 1;
    IsqrtUnique(xp / 100, level);
  }

  /** More experience never means a lower level. */
  lemma LevelMonotone(a: int, b: int)
    requires a <= b
    ensures Level(a) <= Level(b)
  {
    if a >= 0 {
      assert a / 100 <= b / 100;
      IsqrtMonotone(a / 100, b / 100);
    }
  }

  lemma IsqrtMonotone(m: nat, n: nat)
    requires m <= n
    ensures Isqrt(m) <= Isqrt(n)
  {
    SquareLess(Isqrt(m), Isqrt(n) + 1);
  }

  /** A member with non-negative xp is at level L or above exactly when
      their xp has reached XpForLevel(L). */
  lemma LevelReachedIff(xp: int, level: nat)
    requires xp >= 0
    ensures Level(xp) >= level <==> xp >= XpForLevel(level)
  {
    LevelOfXpForLevel(level);
    if xp >= XpForLevel(level) {
      LevelMonotone(XpForLevel(level), xp);
    } else {
      LevelMonotone(xp, XpForLevel(level) - 1);
      var l := Level(XpForLevel(level) - 1);
      if level > 0 {
        assert 100 * (l * l) <= XpForLevel(level) - 1 < 100 * (level * level);
        SquareLess(l, level);
      }
    }
  }
}
