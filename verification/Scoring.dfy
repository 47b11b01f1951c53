// The weighted routing score, with its rounding after every operation.

module Scoring {
  import opened Words

  // Rounding an exact value to the nearest 32-bit float.
  type Rounding = real -> real

  const MAX_FEE := 100.0
  const MAX_REPUTATION := 100.0
  // The largest finite 32-bit float.
  const MAX_TIME := 340282346638528859811704183484516925440.0

  const FEE_WEIGHT := 0.333
  const SPEED_WEIGHT := 0.333
  const REPUTATION_WEIGHT := 0.334

  function FeeScore(round: Rounding, fee: u32): real {
    round(1.0 - round(round(fee as real) / MAX_FEE))
  }

  function SpeedScore(round: Rounding, settlement: u64): real {
    round(1.0 - round(round(settlement as real) / MAX_TIME))
  }

  function ReputationScore(round: Rounding, reputation: u32): real {
    round(round(reputation as real) / MAX_REPUTATION)
  }

  function Times(a: real, b: real): real {
    a * b
  }

  function Share(round: Rounding, weight: real, score: real): real {
    round(Times(round(weight), score))
  }

  function Total(round: Rounding, fees: real, speed: real, reputation: real): real {
    round(round(fees + speed) + reputation)
  }

  function ScoreOf(round: Rounding, fee: u32, settlement: u64, reputation: u32): real {
    Total(
      round,
      Share(round, FEE_WEIGHT, FeeScore(round, fee)),
      Share(round, SPEED_WEIGHT, SpeedScore(round, settlement)),
      Share(round, REPUTATION_WEIGHT, ReputationScore(round, reputation)))
  }

  // ----- what rounding to nearest with 24 significant bits promises -----

  const TWO26 := 67108864.0
  const TWO32 := 4294967296.0
  const TWO64 := 18446744073709551616.0

  ghost predicate Monotone(round: Rounding) {
    forall x, y :: x <= y ==> round(x) <= round(y)
  }

  // It respects order, keeps powers of two and zero, and rounds what is within 2^-26 below one
  // up to one, since the float before one is 2^-24 away.
  ghost predicate NearestFloat(round: Rounding) {
    && Monotone(round)
    && round(0.0) == 0.0 && round(1.0) == 1.0 && round(1.0 / TWO26) == 1.0 / TWO26
    && round(TWO26) == TWO26 && round(-TWO26) == -TWO26
    && round(2.0 * TWO26) == 2.0 * TWO26 && round(-2.0 * TWO26) == -2.0 * TWO26
    && round(4.0 * TWO26) == 4.0 * TWO26
    && round(TWO32) == TWO32 && round(TWO64) == TWO64
    && round(1.0 - 1.0 / TWO26) == 1.0
  }

  // Such roundings exist.
  lemma NearestFloatExists() returns (round: Rounding)
    ensures NearestFloat(round)
  {
    round := x => if 1.0 - 1.0 / TWO26 <= x <= 1.0 then 1.0 else x;
  }

  lemma Between(round: Rounding, lo: real, x: real, hi: real)
    requires Monotone(round) && lo <= x <= hi
    ensures round(lo) <= round(x) <= round(hi)
  {
  }

  lemma Scaled(w: real, x: real, y: real)
    requires w >= 0.0 && x <= y
    ensures Times(w, x) <= Times(w, y)
  {
  }

  lemma ScaledDown(w: real, x: real, y: real)
    requires w <= 0.0 && x <= y
    ensures Times(w, y) <= Times(w, x)
  {
  }

  // A factor between zero and one keeps a product between bounds that enclose zero.
  lemma Shrunk(w: real, lo: real, x: real, hi: real)
    requires 0.0 <= w <= 1.0 && lo <= 0.0 <= hi && lo <= x <= hi
    ensures lo <= Times(w, x) <= hi
  {
    if x >= 0.0 {
      Scaled(x, w, 1.0);
      assert w * x >= 0.0;
    } else {
      ScaledDown(x, w, 1.0);
      assert w * x <= 0.0;
    }
  }

  lemma Weights(round: Rounding, weight: real)
    requires NearestFloat(round) && 0.0 <= weight <= 1.0
    ensures 0.0 <= round(weight) <= 1.0
  {
    Between(round, 0.0, weight, 1.0);
  }

  // A share lies between the same bounds as its score, when zero does too.
  lemma ShareBounds(round: Rounding, weight: real, lo: real, score: real, hi: real)
    requires NearestFloat(round) && 0.0 <= weight <= 1.0
    requires lo <= 0.0 <= hi && lo <= score <= hi && round(lo) == lo && round(hi) == hi
    ensures lo <= Share(round, weight, score) <= hi
  {
    Weights(round, weight);
    Shrunk(round(weight), lo, score, hi);
    Between(round, lo, Times(round(weight), score), hi);
  }

  lemma QuotientBounds(round: Rounding, n: u32)
    requires NearestFloat(round)
    ensures 0.0 <= round(round(n as real) / 100.0) <= TWO26
  {
    Between(round, 0.0, n as real, TWO32);
    Between(round, 0.0, round(n as real) / 100.0, TWO26);
  }

  // Every part and the total stay far inside the range of a float, so no operation overflows or
  // yields something that is not a number, whatever the candidate.
  lemma ScoreStaysFinite(round: Rounding, fee: u32, settlement: u64, reputation: u32)
    requires NearestFloat(round)
    ensures -TWO26 <= FeeScore(round, fee) <= 1.0
    ensures SpeedScore(round, settlement) == 1.0
    ensures 0.0 <= ReputationScore(round, reputation) <= TWO26
    ensures -2.0 * TWO26 <= ScoreOf(round, fee, settlement, reputation) <= 4.0 * TWO26
  {
    QuotientBounds(round, fee);
    QuotientBounds(round, reputation);
    Between(round, -TWO26, 1.0 - round(round(fee as real) / MAX_FEE), 1.0);
    SpeedIsOne(round, settlement);
    var fees := Share(round, FEE_WEIGHT, FeeScore(round, fee));
    var speed := Share(round, SPEED_WEIGHT, SpeedScore(round, settlement));
    var rep := Share(round, REPUTATION_WEIGHT, ReputationScore(round, reputation));
    ShareBounds(round, FEE_WEIGHT, -TWO26, FeeScore(round, fee), 1.0);
    ShareBounds(round, SPEED_WEIGHT, 0.0, 1.0, 1.0);
    ShareBounds(round, REPUTATION_WEIGHT, 0.0, ReputationScore(round, reputation), TWO26);
    TotalBounds(round, fees, speed, rep);
  }

  lemma TotalBounds(round: Rounding, fees: real, speed: real, reputation: real)
    requires NearestFloat(round)
    requires -TWO26 <= fees <= 1.0 && 0.0 <= speed <= 1.0 && 0.0 <= reputation <= TWO26
    ensures -2.0 * TWO26 <= Total(round, fees, speed, reputation) <= 4.0 * TWO26
  {
    Between(round, -2.0 * TWO26, fees + speed, 2.0 * TWO26);
    Between(round, -2.0 * TWO26, round(fees + speed) + reputation, 4.0 * TWO26);
  }

  // A 64-bit time over the largest float is below 2^-26, so one minus it rounds to one.
  lemma SpeedIsOne(round: Rounding, settlement: u64)
    requires NearestFloat(round)
    ensures SpeedScore(round, settlement) == 1.0
  {
    var time := round(settlement as real);
    Between(round, 0.0, settlement as real, TWO64);
    Between(round, 0.0, time / MAX_TIME, 1.0 / TWO26);
    Between(round, 1.0 - 1.0 / TWO26, 1.0 - round(time / MAX_TIME), 1.0);
  }

  // The settlement time never counts, although the speed weight is a third.
  lemma SettlementNeverCounts(round: Rounding, fee: u32, settlement: u64, other: u64, reputation: u32)
    requires NearestFloat(round)
    ensures ScoreOf(round, fee, settlement, reputation) == ScoreOf(round, fee, other, reputation)
  {
    SpeedIsOne(round, settlement);
    SpeedIsOne(round, other);
  }

  lemma ShareMonotone(round: Rounding, weight: real, x: real, y: real)
    requires NearestFloat(round) && 0.0 <= weight <= 1.0 && x <= y
    ensures Share(round, weight, x) <= Share(round, weight, y)
  {
    Weights(round, weight);
    Scaled(round(weight), x, y);
  }

  lemma FeeScoreMonotone(round: Rounding, fee: u32, higherFee: u32)
    requires NearestFloat(round) && fee <= higherFee
    ensures FeeScore(round, higherFee) <= FeeScore(round, fee)
  {
  }

  lemma ReputationScoreMonotone(round: Rounding, reputation: u32, lowerReputation: u32)
    requires NearestFloat(round) && lowerReputation <= reputation
    ensures ReputationScore(round, lowerReputation) <= ReputationScore(round, reputation)
  {
  }

  lemma TotalMonotone(round: Rounding, fees: real, moreFees: real, speed: real, rep: real, moreRep: real)
    requires Monotone(round) && fees <= moreFees && rep <= moreRep
    ensures Total(round, fees, speed, rep) <= Total(round, moreFees, speed, moreRep)
  {
    assert round(fees + speed) <= round(moreFees + speed);
  }

  // A fee no higher and a reputation no lower never score less.
  lemma ScoreMonotone(
      round: Rounding, fee: u32, higherFee: u32, settlement: u64, other: u64, reputation: u32, lowerReputation: u32)
    requires NearestFloat(round)
    requires fee <= higherFee && lowerReputation <= reputation
    ensures ScoreOf(round, higherFee, other, lowerReputation) <= ScoreOf(round, fee, settlement, reputation)
  {
    SettlementNeverCounts(round, higherFee, settlement, other, lowerReputation);
    FeeScoreMonotone(round, fee, higherFee);
    ReputationScoreMonotone(round, reputation, lowerReputation);
    ShareMonotone(round, FEE_WEIGHT, FeeScore(round, higherFee), FeeScore(round, fee));
    ShareMonotone(
      round, REPUTATION_WEIGHT, ReputationScore(round, lowerReputation), ReputationScore(round, reputation));
    TotalMonotone(
      round,
      Share(round, FEE_WEIGHT, FeeScore(round, higherFee)), Share(round, FEE_WEIGHT, FeeScore(round, fee)),
      Share(round, SPEED_WEIGHT, SpeedScore(round, settlement)),
      Share(round, REPUTATION_WEIGHT, ReputationScore(round, lowerReputation)),
      Share(round, REPUTATION_WEIGHT, ReputationScore(round, reputation)));
  }

  lemma FeeShareIs(round: Rounding, fee: u32)
    ensures Share(round, FEE_WEIGHT, FeeScore(round, fee))
         == round(Times(round(0.333), round(1.0 - round(round(fee as real) / 100.0))))
  {
  }

  lemma SpeedShareIs(round: Rounding, settlement: u64)
    requires NearestFloat(round)
    ensures Share(round, SPEED_WEIGHT, SpeedScore(round, settlement)) == round(round(0.333))
  {
    SpeedIsOne(round, settlement);
  }

  lemma ReputationShareIs(round: Rounding, reputation: u32)
    ensures Share(round, REPUTATION_WEIGHT, ReputationScore(round, reputation))
         == round(Times(round(0.334), round(round(reputation as real) / 100.0)))
  {
  }

  lemma ScoreIsTotal(
      round: Rounding, fee: u32, settlement: u64, reputation: u32, fees: real, speed: real, rep: real)
    requires fees == Share(round, FEE_WEIGHT, FeeScore(round, fee))
    requires speed == Share(round, SPEED_WEIGHT, SpeedScore(round, settlement))
    requires rep == Share(round, REPUTATION_WEIGHT, ReputationScore(round, reputation))
    ensures ScoreOf(round, fee, settlement, reputation) == round(round(fees + speed) + rep)
  {
  }

  // So the score is the rounded sum of these shares, whatever the settlement time.
  lemma ScoreFormula(round: Rounding, fee: u32, settlement: u64, reputation: u32)
    returns (fees: real, rep: real)
    requires NearestFloat(round)
    ensures fees == round(Times(round(0.333), round(1.0 - round(round(fee as real) / 100.0))))
    ensures rep == round(Times(round(0.334), round(round(reputation as real) / 100.0)))
    ensures ScoreOf(round, fee, settlement, reputation) == round(round(fees + round(round(0.333))) + rep)
  {
    fees := Share(round, FEE_WEIGHT, FeeScore(round, fee));
    rep := Share(round, REPUTATION_WEIGHT, ReputationScore(round, reputation));
    FeeShareIs(round, fee);
    SpeedShareIs(round, settlement);
    ReputationShareIs(round, reputation);
    ScoreIsTotal(round, fee, settlement, reputation, fees, round(round(0.333)), rep);
  }
}
