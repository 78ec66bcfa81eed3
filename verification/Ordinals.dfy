/**
 * Safe integers, the event-backed ordinal that wraps at the largest of them, and
 * the turns that consecutive ordinals give to a fixed number of slots.
 */
module Ordinals {

  const MAX_SAFE_INTEGER: nat := 0x1F_FFFF_FFFF_FFFF

  predicate NonNegativeSafe(n: int) {
    0 <= n <= MAX_SAFE_INTEGER
  }

  predicate PositiveSafe(n: int) {
    1 <= n <= MAX_SAFE_INTEGER
  }

  function AdvanceOrdinal(current: nat): nat {
    if current >= MAX_SAFE_INTEGER then 0 else current + 1
  }

  function OrdinalAfter(ordinal: nat, k: nat): nat
    decreases k
  {
    if k == 0 then ordinal else OrdinalAfter(AdvanceOrdinal(ordinal), k - 1)
  }

  lemma {:induction false} OrdinalAfterSafe(ordinal: nat, k: nat)
    requires ordinal <= MAX_SAFE_INTEGER
    ensures OrdinalAfter(ordinal, k) <= MAX_SAFE_INTEGER
    ensures ordinal + k <= MAX_SAFE_INTEGER ==> OrdinalAfter(ordinal, k) == ordinal + k
    decreases k
  {
    if k > 0 { OrdinalAfterSafe(AdvanceOrdinal(ordinal), k - 1); }
  }

  lemma {:induction false} OrdinalAfterAdd(ordinal: nat, a: nat, b: nat)
    ensures OrdinalAfter(OrdinalAfter(ordinal, a), b) == OrdinalAfter(ordinal, a + b)
    decreases a
  {
    if a > 0 { OrdinalAfterAdd(AdvanceOrdinal(ordinal), a - 1, b); }
  }

  // ---------------------------------------------------------------------
  // Round-robin turns
  // ---------------------------------------------------------------------

  // Turn i from the ordinal falls on the slot.
  predicate TurnHits(ordinal: nat, m: nat, i: nat, slot: nat)
    requires m > 0
  {
    OrdinalAfter(ordinal, i) % m == slot
  }

  ghost predicate HitOnce(ordinal: nat, m: nat, slot: nat)
    requires m > 0
  {
    exists i :: 0 <= i < m && TurnHits(ordinal, m, i, slot) && forall j :: 0 <= j < m && TurnHits(ordinal, m, j, slot) ==> j == i
  }

  // Each of m slots gets exactly one of the m turns that begin at the ordinal.
  ghost predicate EachSlotOnce(ordinal: nat, m: nat)
    requires m > 0
  {
    forall slot :: 0 <= slot < m ==> HitOnce(ordinal, m, slot)
  }

  lemma MultipleSize(m: int, d: int)
    requires m > 0
    ensures d >= 1 ==> m * d >= m
    ensures d <= -1 ==> m * d <= -m
  {
    if d >= 1 { assert m * (d - 1) >= 0; }
    if d <= -1 { assert m * (d + 1) <= 0; }
  }

  lemma ModIs(x: int, m: int, q: int, r: int)
    requires m > 0 && x == m * q + r && 0 <= r < m
    ensures x % m == r
  {
    var d := x / m - q;
    assert m * d == r - x % m by {
      assert x == m * (x / m) + x % m;
      assert m * d == m * (x / m) - m * q;
    }
    MultipleSize(m, d);
  }

  lemma ModGap(x: int, y: int, m: int)
    requires m > 0 && x <= y < x + m && x % m == y % m
    ensures x == y
  {
    var d := y / m - x / m;
    assert m * d == y - x by {
      assert x == m * (x / m) + x % m && y == m * (y / m) + y % m;
      assert m * d == m * (y / m) - m * (x / m);
    }
    MultipleSize(m, d);
  }

  const ORDINALS: nat := MAX_SAFE_INTEGER + 1

  // The ordinal counts modulo 2^53.
  lemma {:induction false} OrdinalAfterMod(ordinal: nat, k: nat)
    requires ordinal <= MAX_SAFE_INTEGER
    ensures OrdinalAfter(ordinal, k) == (ordinal + k) % ORDINALS
    decreases k
  {
    if k > 0 {
      OrdinalAfterMod(AdvanceOrdinal(ordinal), k - 1);
    }
  }

  // The turns behave as plain counting whenever reducing modulo 2^53 first makes no difference.
  lemma SlotsFromCounting(ordinal: nat, m: nat)
    requires m > 0
    requires forall i: nat :: i < m ==> OrdinalAfter(ordinal, i) % m == (ordinal + i) % m
    ensures EachSlotOnce(ordinal, m)
  {
    forall slot | 0 <= slot < m ensures HitOnce(ordinal, m, slot) {
      var r := ordinal % m;
      var i := if slot >= r then slot - r else slot - r + m;
      var q := ordinal / m + if slot >= r then 0 else 1;
      assert ordinal + i == m * q + slot by {
        assert ordinal == m * (ordinal / m) + r;
        assert m * (ordinal / m + 1) == m * (ordinal / m) + m;
      }
      ModIs(ordinal + i, m, q, slot);
      assert TurnHits(ordinal, m, i, slot);
      forall j | 0 <= j < m && TurnHits(ordinal, m, j, slot) ensures j == i {
        if j >= i { ModGap(ordinal + i, ordinal + j, m); } else { ModGap(ordinal + j, ordinal + i, m); }
      }
    }
  }

  /** Without a wrap, m consecutive ordinals give each of m slots exactly one turn. */
  lemma RoundRobinTurns(ordinal: nat, m: nat)
    requires m > 0 && ordinal + m - 1 <= MAX_SAFE_INTEGER
    ensures EachSlotOnce(ordinal, m)
  {
    forall i: nat | i < m ensures OrdinalAfter(ordinal, i) % m == (ordinal + i) % m {
      OrdinalAfterSafe(ordinal, i);
    }
    SlotsFromCounting(ordinal, m);
  }

  // Reducing modulo a multiple of m first changes nothing modulo m.
  lemma ModOfMultiple(x: nat, m: nat, k: nat, n: nat)
    requires m > 0 && n > 0 && n == m * k
    ensures (x % n) % m == x % m
  {
    var q, r := x / n, x % n;
    var t := r / m;
    assert x == m * (k * q + t) + r % m by {
      assert x == n * q + r;
      assert n * q == m * (k * q);
      assert r == m * t + r % m;
      assert m * (k * q + t) == m * (k * q) + m * t;
    }
    ModIs(x, m, k * q + t, r % m);
  }

  lemma DivisorKeepsCycle(ordinal: nat, m: nat)
    requires m > 0 && ordinal <= MAX_SAFE_INTEGER && ORDINALS % m == 0
    ensures EachSlotOnce(ordinal, m)
  {
    forall i: nat | i < m ensures OrdinalAfter(ordinal, i) % m == (ordinal + i) % m {
      OrdinalAfterMod(ordinal, i);
      ModOfMultiple(ordinal + i, m, ORDINALS / m, ORDINALS);
    }
    SlotsFromCounting(ordinal, m);
  }

  lemma CycleNeedsDivisor(m: nat)
    requires m > 0 && EachSlotOnce(MAX_SAFE_INTEGER, m)
    ensures ORDINALS % m == 0
  {
    assert HitOnce(MAX_SAFE_INTEGER, m, m - 1);
    var i :| 0 <= i < m && TurnHits(MAX_SAFE_INTEGER, m, i, m - 1);
    OrdinalAfterMod(MAX_SAFE_INTEGER, i);
    var turn := OrdinalAfter(MAX_SAFE_INTEGER, i);
    if i == 0 {
      assert ORDINALS == m * (turn / m + 1) by {
        assert turn == m * (turn / m) + (m - 1);
        assert m * (turn / m + 1) == m * (turn / m) + m;
      }
      ModIs(ORDINALS, m, turn / m + 1, 0);
    } else if i <= ORDINALS {
      ModIs(MAX_SAFE_INTEGER + i, ORDINALS, 1, i - 1);
      ModIs(turn, m, 0, turn);
      assert false;
    } else {
      ModIs(turn, m, 0, turn);
      assert false;
    }
  }

  /** The wrap from the largest safe integer to 0 keeps every cycle of m turns exact if and only if m divides 2^53. */
  lemma WrapKeepsRoundRobin(m: nat)
    requires m > 0
    ensures (forall ordinal: nat :: ordinal <= MAX_SAFE_INTEGER ==> EachSlotOnce(ordinal, m)) <==> ORDINALS % m == 0
  {
    if ORDINALS % m == 0 {
      forall ordinal: nat | ordinal <= MAX_SAFE_INTEGER ensures EachSlotOnce(ordinal, m) {
        DivisorKeepsCycle(ordinal, m);
      }
    } else if EachSlotOnce(MAX_SAFE_INTEGER, m) {
      CycleNeedsDivisor(m);
    }
  }
}
