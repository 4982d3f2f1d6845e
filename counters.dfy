/** The saturating counters of the Load Classification Table (LCT) and the
    mapping from a counter's value to the classification of its load. */
module Counters {

  /** Width in bits of every LCT counter (bits_per_entry).  The classification
      scheme is defined for 1-bit and 2-bit counters only. */
  type CounterWidth = b: int | b == 1 || b == 2 witness 1

  datatype Classification = Unpredictable | Predictable | Constant

  function Pow2(n: nat): (r: nat)
    ensures r >= 1
  {
    if n == 0 then 1 else 2 * Pow2(n - 1)
  }

  /** The largest value a counter of the given width holds, 2^bits - 1. */
  function MaxCounter(bits: CounterWidth): nat
  {
    Pow2(bits) - 1
  }

  /** The smallest counter value that lets a load be predicted, 2^(bits-1):
      the upper half of the counter's range predicts. */
  function PredictThreshold(bits: CounterWidth): nat
  {
    Pow2(bits - 1)
  }

  /** Orders the classifications: Unpredictable < Predictable < Constant. */
  function Rank(c: Classification): nat
  {
    match c
    case Unpredictable => 0
    case Predictable => 1
    case Constant => 2
  }

  /** The classification of a counter value.  A saturated counter is Constant,
      a counter in the upper half of its range is Predictable, the rest is
      Unpredictable.  The ensures clauses are the per-width tables. */
  function Classify(counter: nat, bits: CounterWidth): (c: Classification)
    requires counter <= MaxCounter(bits)
    ensures bits == 1 ==> c == (if counter == 0 then Unpredictable else Constant)
    ensures bits == 2 ==> c == (if counter <= 1 then Unpredictable
                                else if counter == 2 then Predictable
                                else Constant)
  {
    if counter == MaxCounter(bits) then Constant
    else if counter >= PredictThreshold(bits) then Predictable
    else Unpredictable
  }

  /** Saturating increment: one up, but never past 2^bits - 1. */
  function Increment(counter: nat, bits: CounterWidth): (r: nat)
    requires counter <= MaxCounter(bits)
    ensures r <= MaxCounter(bits)
  {
    if counter < MaxCounter(bits) then counter + 1 else counter
  }

  /** Saturating decrement: one down, but never below 0. */
  function Decrement(counter: nat): (r: nat)
    ensures r <= counter
  {
    if counter > 0 then counter - 1 else 0
  }

  /** Each step moves the counter by exactly one unless it is already at the
      end of its range. */
  lemma StepsByOne(counter: nat, bits: CounterWidth)
    requires counter <= MaxCounter(bits)
    ensures Increment(counter, bits) == counter + 1 <==> counter < MaxCounter(bits)
    ensures Increment(counter, bits) == counter <==> counter == MaxCounter(bits)
    ensures Decrement(counter) + 1 == counter <==> counter > 0
    ensures Decrement(counter) == counter <==> counter == 0
  {
  }

  /** Away from the saturation points, decrement undoes increment and the
      other way round. */
  lemma IncrementDecrementInverse(counter: nat, bits: CounterWidth)
    requires counter <= MaxCounter(bits)
    ensures counter < MaxCounter(bits) ==> Decrement(Increment(counter, bits)) == counter
    ensures counter > 0 ==> Increment(Decrement(counter), bits) == counter
  {
  }

  /** A larger counter never classifies lower. */
  lemma ClassifyMonotone(c1: nat, c2: nat, bits: CounterWidth)
    requires c1 <= c2 <= MaxCounter(bits)
    ensures Rank(Classify(c1, bits)) <= Rank(Classify(c2, bits))
  {
  }

  /** An increment never downgrades a load and a decrement never upgrades it. */
  lemma StepsAreMonotone(counter: nat, bits: CounterWidth)
    requires counter <= MaxCounter(bits)
    ensures Rank(Classify(Increment(counter, bits), bits)) >= Rank(Classify(counter, bits))
    ensures Rank(Classify(Decrement(counter), bits)) <= Rank(Classify(counter, bits))
  {
  }

  /** An increment upgrades a load to Constant exactly when the counter is one
      below saturation (the 2 -> 3 step of a 2-bit counter, 0 -> 1 of a 1-bit
      one). */
  lemma UpgradeToConstant(counter: nat, bits: CounterWidth)
    requires counter <= MaxCounter(bits)
    ensures (Classify(counter, bits) != Constant && Classify(Increment(counter, bits), bits) == Constant)
            <==> counter + 1 == MaxCounter(bits)
  {
  }

  /** One decrement of a Constant load demotes it: to Predictable with a 2-bit
      counter, to Unpredictable with a 1-bit one. */
  lemma DowngradeFromConstant(counter: nat, bits: CounterWidth)
    requires counter <= MaxCounter(bits)
    requires Classify(counter, bits) == Constant
    ensures Classify(Decrement(counter), bits) == (if bits == 2 then Predictable else Unpredictable)
  {
  }

  /** The counter after n increments in a row. */
  function Increments(counter: nat, bits: CounterWidth, n: nat): (r: nat)
    requires counter <= MaxCounter(bits)
    ensures r <= MaxCounter(bits)
    decreases n
  {
    if n == 0 then counter else Increments(Increment(counter, bits), bits, n - 1)
  }

  /** n increments in a row saturate: they reach min(counter + n, 2^bits - 1). */
  lemma {:induction false} IncrementsSaturate(counter: nat, bits: CounterWidth, n: nat)
    requires counter <= MaxCounter(bits)
    ensures Increments(counter, bits, n)
            == if counter + n <= MaxCounter(bits) then counter + n else MaxCounter(bits)
    decreases n
  {
    if n > 0 {
      IncrementsSaturate(Increment(counter, bits), bits, n - 1);
    }
  }

  /** From the initial counter 0, 2^bits - 1 consecutive increments make a
      load Constant (three correct predictions with a 2-bit counter). */
  lemma ConstantAfterMaxIncrements(bits: CounterWidth)
    ensures Classify(Increments(0, bits, MaxCounter(bits)), bits) == Constant
    ensures forall n :: 0 <= n < MaxCounter(bits) ==> Classify(Increments(0, bits, n), bits) != Constant
  {
  }
}
