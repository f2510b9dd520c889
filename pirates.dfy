/** Model of `pirate_share`: the captain keeps half of the booty, the crew
    split the other half in equal shares rounded down, and whatever is left
    over goes to the ship's parrot.

    Rust's `u64` and `usize` are modelled as bounded naturals (a 64-bit
    target is assumed, so `crew_size as u64` is lossless). Rust panics on an
    integer division by zero; that programmer error is the precondition
    `crewSize > 0`, so no caller of the model can reach it. */
module Pirates {

  const U64_LIMIT: int := 0x1_0000_0000_0000_0000

  newtype U64 = x: int | 0 <= x < U64_LIMIT

  /** `usize` on a 64-bit target. */
  newtype USize = x: int | 0 <= x < U64_LIMIT

  /** The half of the booty the crew divide among themselves, rounded down. */
  function CrewHalf(total: U64): (half: U64)
    ensures 2 * half as int <= total as int <= 2 * half as int + 1
  {
    total / 2
  }

  /** One crew member's share. Each division is truncating and every value
      computed stays a `u64`: Dafny checks that no step leaves the range. */
  function PirateShare(total: U64, crewSize: USize): (share: U64)
    requires crewSize > 0
    ensures share as int * crewSize as int <= CrewHalf(total) as int
    ensures CrewHalf(total) as int < (share as int + 1) * crewSize as int
  {
    var half := CrewHalf(total);
    half / crewSize as U64
  }

  /** What is left of the crew's half once every member has a share. */
  function ParrotCut(total: U64, crewSize: USize): (leftover: U64)
    requires crewSize > 0
    ensures leftover < crewSize as U64
    ensures PirateShare(total, crewSize) as int * crewSize as int + leftover as int == CrewHalf(total) as int
  {
    CrewHalf(total) - (PirateShare(total, crewSize) as int * crewSize as int) as U64
  }

  // ---------------------------------------------------------------------
  // An independent reference definition: the half is dealt out one coin
  // per crew member per round, for as long as a whole round can be paid.

  /** Number of whole rounds in which every one of `crewSize` members gets
      one coin out of `coins`. */
  function DealtRounds(coins: nat, crewSize: nat): (rounds: nat)
    requires crewSize > 0
    decreases coins
  {
    if coins < crewSize then 0 else 1 + DealtRounds(coins - crewSize, crewSize)
  }

  /** Dealing round by round leaves fewer coins than crew members. */
  lemma {:induction false} DealtRoundsRemainder(coins: nat, crewSize: nat)
    requires crewSize > 0
    ensures DealtRounds(coins, crewSize) * crewSize <= coins
    ensures coins - DealtRounds(coins, crewSize) * crewSize < crewSize
    decreases coins
  {
    if coins >= crewSize {
      DealtRoundsRemainder(coins - crewSize, crewSize);
      var r := DealtRounds(coins - crewSize, crewSize);
      assert DealtRounds(coins, crewSize) * crewSize == r * crewSize + crewSize;
    }
  }

  /** The remainder law determines the share: at most one natural number `s`
      has `s * c <= h < (s + 1) * c`. */
  lemma ShareIsUnique(h: int, c: int, s1: nat, s2: nat)
    requires c > 0
    requires s1 * c <= h < (s1 + 1) * c
    requires s2 * c <= h < (s2 + 1) * c
    ensures s1 == s2
  {
    if s1 < s2 {
      assert (s1 + 1) * c <= s2 * c by { MulMonotone(s1 + 1, s2, c); }
      assert false;
    } else if s2 < s1 {
      assert (s2 + 1) * c <= s1 * c by { MulMonotone(s2 + 1, s1, c); }
      assert false;
    }
  }

  /** Multiplying by a non-negative number keeps order. */
  lemma MulMonotone(a: int, b: int, c: int)
    requires a <= b && c >= 0
    ensures a * c <= b * c
  {
    assert b * c - a * c == (b - a) * c;
  }

  /** Each crew member gets exactly as many coins as whole rounds can be
      dealt out of the crew's half. */
  lemma ShareIsDealtRounds(total: U64, crewSize: USize)
    requires crewSize > 0
    ensures PirateShare(total, crewSize) as int == DealtRounds(CrewHalf(total) as int, crewSize as int)
  {
    var h := CrewHalf(total) as int;
    var c := crewSize as int;
    var r := DealtRounds(h, c);
    DealtRoundsRemainder(h, c);
    assert h < (r + 1) * c;
    ShareIsUnique(h, c, PirateShare(total, crewSize) as int, r);
  }

  /** Halving first and then dividing among the crew is one division of the
      whole booty by twice the crew size. */
  lemma ShareIsTotalOverTwiceCrew(total: U64, crewSize: USize)
    requires crewSize > 0
    ensures PirateShare(total, crewSize) as int == total as int / (2 * crewSize as int)
  {
    HalveThenDivide(total as int, crewSize as int);
  }

  /** On naturals, `(t / 2) / c == t / (2 * c)`. */
  lemma HalveThenDivide(t: nat, c: nat)
    requires c > 0
    ensures (t / 2) / c == t / (2 * c)
  {
    var q := t / (2 * c);
    var h := t / 2;
    var qc := q * c;
    DivBounds(t, 2 * c);
    DivBounds(t, 2);
    MulTwice(q, c);
    MulSucc(q, c);
    assert qc <= h < qc + c;
    DivBounds(h, c);
    MulSucc(h / c, c);
    ShareIsUnique(h, c, h / c, q);
  }

  /** Truncating division leaves a remainder below the divisor. */
  lemma DivBounds(n: nat, d: nat)
    requires d > 0
    ensures (n / d) * d <= n < (n / d) * d + d
  {
  }

  /** Multiplying by twice a number is twice the product. */
  lemma MulTwice(q: int, c: int)
    ensures q * (2 * c) == 2 * (q * c)
  {
  }

  /** One more multiple of `c` is `c` more. */
  lemma MulSucc(q: int, c: int)
    ensures (q + 1) * c == q * c + c
  {
  }

  /** The crew never receive more than the half left after the captain's cut. */
  lemma ShareAtMostHalf(total: U64, crewSize: USize)
    requires crewSize > 0
    ensures PirateShare(total, crewSize) <= CrewHalf(total)
  {
    var s := PirateShare(total, crewSize) as int;
    MulMonotone(1, crewSize as int, s);
  }

  /** No overflow: the share never exceeds the booty itself, and neither does
      the intermediate half. */
  lemma ShareFitsInTotal(total: U64, crewSize: USize)
    requires crewSize > 0
    ensures CrewHalf(total) <= total
    ensures PirateShare(total, crewSize) <= total
  {
    ShareAtMostHalf(total, crewSize);
  }

  /** A bigger crew never gets a bigger share. */
  lemma ShareAntitoneInCrew(total: U64, c1: USize, c2: USize)
    requires 0 < c1 <= c2
    ensures PirateShare(total, c2) <= PirateShare(total, c1)
  {
    var h := CrewHalf(total) as int;
    var s1 := PirateShare(total, c1) as int;
    var s2 := PirateShare(total, c2) as int;
    MulMonotone(c1 as int, c2 as int, s2);
    assert s2 * c1 as int <= h < (s1 + 1) * c1 as int;
    if s2 > s1 {
      MulMonotone(s1 + 1, s2, c1 as int);
      assert false;
    }
  }

  /** A bigger booty never gives a smaller share. */
  lemma ShareMonotoneInTotal(t1: U64, t2: U64, crewSize: USize)
    requires crewSize > 0
    requires t1 <= t2
    ensures PirateShare(t1, crewSize) <= PirateShare(t2, crewSize)
  {
    var c := crewSize as int;
    var s1 := PirateShare(t1, crewSize) as int;
    var s2 := PirateShare(t2, crewSize) as int;
    assert s1 * c <= CrewHalf(t2) as int < (s2 + 1) * c;
    if s1 > s2 {
      MulMonotone(s2 + 1, s1, c);
      assert false;
    }
  }

  /** No loot (or a single coin, which the halving drops) gives no share. */
  lemma NoLootNoShare(total: U64, crewSize: USize)
    requires crewSize > 0
    requires total <= 1
    ensures PirateShare(total, crewSize) == 0
  {
  }

  /** A lone crew member takes the whole of the crew's half. */
  lemma SoleCrewTakesHalf(total: U64)
    ensures PirateShare(total, 1) == CrewHalf(total)
  {
  }

  /** The three sample divisions: 100 coins among 4 give 12 each, 7 among 3
      give 1, and 1 among 5 gives nothing. */
  lemma SampleShares()
    ensures PirateShare(100, 4) == 12 && ParrotCut(100, 4) == 2
    ensures PirateShare(7, 3) == 1 && ParrotCut(7, 3) == 0
    ensures PirateShare(1, 5) == 0 && ParrotCut(1, 5) == 0
  {
  }
}
