/**
 * Ordering keys `(index, index_sub)` and the allocator that places a new key
 * between two neighbours (a bounded form of fractional indexing).
 */
module Keys {
  import opened Wrappers
  import opened Decimal

  /** An ordering key; Python's tuple `(index, index_sub)`. */
  datatype Key = Key(index: nat, sub: nat)

  /** Python's tuple comparison `a < b` on keys: lexicographic. */
  predicate Less(a: Key, b: Key)
  {
    a.index < b.index || (a.index == b.index && a.sub < b.sub)
  }

  /** The largest sub-key with `d` digits, `10**d - 1`. */
  function MaxSub(d: nat): nat
  {
    Pow10(d) - 1
  }

  /** A key whose sub-key fits in `d` digits. */
  predicate InRange(k: Key, d: nat)
  {
    k.sub <= MaxSub(d)
  }

  function Min(a: int, b: int): int
  {
    if a <= b then a else b
  }

  /** An absent lower neighbour counts as `(0, 0)`. */
  function Lower(before: Option<Key>): Key
  {
    before.GetOr(Key(0, 0))
  }

  /**
   * `determine_index(before, after, l, index_sub_digits)`.
   * Rule 1: a free primary index (or the next key starts its own sub-range) gives `(N+1, 0)`;
   * rule 2: the next key is `(N+1, 0)`, so split the rest of index N's sub-range;
   * rule 3: both neighbours share index N, so split the gap between their sub-keys.
   * An absent `after` stands for +infinity and always takes rule 1.
   */
  function DetermineIndex(before: Option<Key>, after: Option<Key>, l: nat, d: nat): (r: Key)
    requires l >= 1
    ensures InRange(r, d)
  {
    var maxSub := MaxSub(d);
    var n := Lower(before);
    if after.None? then Key(n.index + 1, 0)
    else
      var m := after.value;
      if n.index + 1 < m.index || (n.index + 1 == m.index && m.sub != 0) then Key(n.index + 1, 0)
      else if n.index + 1 == m.index then Key(n.index, Split(n.sub, maxSub, l, maxSub))
      else Key(n.index, Split(n.sub, m.sub, l, maxSub))
  }

  /** `min(n + (top - n) // (l + 1), maxSub)` with Python's floor division. */
  function Split(n: nat, top: nat, l: nat, maxSub: nat): (x: nat)
    requires l >= 1
    ensures x <= maxSub
    ensures n <= maxSub ==> n <= x || top < n
  {
    DivBelow(top - n, l + 1);
    Min(n + (top - n) / (l + 1), maxSub)
  }

  /** Floor division by a positive divisor moves toward zero but never past it. */
  lemma DivBelow(a: int, b: int)
    requires b >= 1
    ensures a >= 0 ==> 0 <= a / b <= a
    ensures a < 0 ==> a <= a / b < 0
  {
    if a >= 0 {
      DivNonNeg(a, b);
    } else {
      DivNeg(a, b);
    }
  }

  lemma DivNonNeg(a: int, b: int)
    requires b >= 1 && a >= 0
    ensures 0 <= a / b <= a
  {
    var q, r := a / b, a % b;
    assert a == b * q + r && 0 <= r < b;
    if q < 0 {
      MulAtMost(-q, b);
      MulNeg(b, q);
    }
    MulAtLeast(q, b);
  }

  lemma DivNeg(a: int, b: int)
    requires b >= 1 && a < 0
    ensures a <= a / b < 0
  {
    var q, r := a / b, a % b;
    assert a == b * q + r && 0 <= r < b;
    if q >= 0 {
      MulAtLeast(q, b);
    } else {
      var c := -q;
      MulNeg(b, q);
      assert a == r - b * c;
      MulAtMost(c, b - 1);
      assert b * c == (b - 1) * c + c;
    }
  }

  lemma MulNeg(b: int, q: int)
    ensures b * q == -(b * -q)
  {
  }

  lemma {:induction false} MulAtLeast(q: nat, b: int)
    requires b >= 1
    ensures b * q >= q
  {
    if q > 0 {
      MulAtLeast(q - 1, b);
      assert b * q == b * (q - 1) + b;
    }
  }

  lemma MulAtMost(q: nat, b: int)
    requires b >= 0 && q >= 1
    ensures b * q >= b
  {
    if b > 0 {
      MulAtLeast(q - 1, b);
      assert b * q == b * (q - 1) + b;
    }
  }

  /**
   * Whether the allocator has room strictly between its neighbours: rule 1 applies, or the
   * gap it splits (the rest of the sub-range under rule 2, `m - n` under rule 3) is at
   * least `l + 1`.
   */
  predicate HasRoom(before: Option<Key>, after: Option<Key>, l: nat, d: nat)
  {
    var n := Lower(before);
    after.None? ||
    n.index + 1 < after.value.index ||
    (n.index + 1 == after.value.index && after.value.sub != 0) ||
    (n.index + 1 == after.value.index && MaxSub(d) - n.sub >= l + 1) ||
    (n.index == after.value.index && after.value.sub - n.sub >= l + 1)
  }

  /** The new key sorts strictly between its neighbours. */
  predicate Between(before: Option<Key>, r: Key, after: Option<Key>)
  {
    Less(Lower(before), r) && (after.Some? ==> Less(r, after.value))
  }

  /**
   * For in-range neighbours given in order, the allocated key lies strictly between them
   * exactly when there is room; otherwise the allocation collides with the lower neighbour
   * (sub-key space exhausted).
   */
  lemma DetermineIndexBetween(before: Option<Key>, after: Option<Key>, l: nat, d: nat)
    requires l >= 1
    requires InRange(Lower(before), d)
    requires after.Some? ==> InRange(after.value, d) && Less(Lower(before), after.value)
    ensures Between(before, DetermineIndex(before, after, l, d), after) <==> HasRoom(before, after, l, d)
    ensures !HasRoom(before, after, l, d) ==> DetermineIndex(before, after, l, d) == Lower(before)
  {
    var n := Lower(before);
    var r := DetermineIndex(before, after, l, d);
    if after.Some? {
      var m := after.value;
      if n.index + 1 < m.index || (n.index + 1 == m.index && m.sub != 0) {
      } else if n.index + 1 == m.index {
        SplitGap(n.sub, MaxSub(d), l, MaxSub(d));
      } else {
        SplitGap(n.sub, m.sub, l, MaxSub(d));
      }
    }
  }

  /** Splitting a gap `top - n` advances past `n` iff the gap is at least `l + 1`, and stays below `top` when it advances. */
  lemma SplitGap(n: nat, top: nat, l: nat, maxSub: nat)
    requires l >= 1 && n <= top <= maxSub
    ensures n < Split(n, top, l, maxSub) <==> top - n >= l + 1
    ensures top - n >= l + 1 ==> Split(n, top, l, maxSub) < top
    ensures top - n < l + 1 ==> Split(n, top, l, maxSub) == n
  {
    if top - n >= l + 1 {
      DivPositive(top - n, l + 1);
    } else {
      DivSmall(top - n, l + 1);
    }
  }

  /** Dividing by at least 2 something no smaller than the divisor gives a positive quotient below it. */
  lemma DivPositive(g: int, b: int)
    requires 2 <= b <= g
    ensures 1 <= g / b < g
  {
    var q, r := g / b, g % b;
    assert g == b * q + r && 0 <= r < b;
    DivNonNeg(g, b);
    MulAtLeast(q, b - 1);
    assert b * q == (b - 1) * q + q;
  }

  /** Dividing by something larger gives zero. */
  lemma DivSmall(g: int, b: int)
    requires 0 <= g < b
    ensures g / b == 0
  {
    var q, r := g / b, g % b;
    assert g == b * q + r && 0 <= r < b;
    DivNonNeg(g, b);
    if q >= 1 {
      MulAtMost(q, b);
    }
  }

  /** The worked examples of rule 2: halving an empty sub-range, then halving what is left above 500. */
  lemma RuleTwoExamples()
    ensures DetermineIndex(Some(Key(5, 0)), Some(Key(6, 0)), 1, 3) == Key(5, 499)
    ensures DetermineIndex(Some(Key(5, 500)), Some(Key(6, 0)), 1, 3) == Key(5, 749)
  {
  }

  /**
   * Rule 2 splits `[n, maxSub]` rather than `[n, maxSub + 1)`: when exactly one sub-key is
   * left above `n`, the allocator reports exhaustion although `(N, maxSub)` is free.
   */
  lemma RuleTwoLeavesLastSlot(idx: nat, d: nat)
    requires d >= 1
    ensures var before := Key(idx, MaxSub(d) - 1);
            var r := DetermineIndex(Some(before), Some(Key(idx + 1, 0)), 1, d);
            r == before && Less(before, Key(idx, MaxSub(d))) && Less(Key(idx, MaxSub(d)), Key(idx + 1, 0))
  {
    assert Pow10(d) >= 10 by { Pow10Grows(d); }
  }

  lemma {:induction false} Pow10Grows(d: nat)
    requires d >= 1
    ensures Pow10(d) >= 10
  {
    if d > 1 {
      Pow10Grows(d - 1);
    }
  }

  /**
   * `calculate_index_digits(count)`: three digits up to 999, and above 999 exactly the number
   * of decimal digits of `count`; so always at least three and enough for `count`.
   */
  function CalculateIndexDigits(count: nat): (r: nat)
    ensures count <= 999 ==> r == 3
    ensures r >= 3
    ensures count < Pow10(r)
    ensures count > 999 ==> Pow10(r - 1) <= count
  {
    NatToStringLength(count);
    if count <= 999 then 3 else |NatToString(count)|
  }

  /**
   * `migrate_old_index`: a legacy flat index becomes the key `(flat, 0)`. The source does no
   * more than build that pair; what the migration preserves, the file name, is stated by
   * `Naming.MigratedNameUnchanged`.
   */
  function MigrateOldIndex(flat: nat): (k: Key)
    ensures k.index == flat && k.sub == 0
  {
    Key(flat, 0)
  }
}
