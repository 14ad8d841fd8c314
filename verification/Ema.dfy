/** The fixed-point exponential moving average of lib-device/include/ema.h, in 16-bit unsigned arithmetic. */
module Ema {
  import opened Bits

  const LIMIT := 0x1_0000

  /** nHalf: half of the divisor, for rounding, as far as it fits in 16 bits; beyond K = 16 nothing of it does. */
  function Half(k: nat): nat {
    if 0 < k <= 16 then Pow2(k - 1) else 0
  }

  /** That is the constant cut to 16 bits. */
  lemma HalfIsCut(k: nat)
    requires k > 0
    ensures Pow2(k - 1) % LIMIT == Half(k)
  {
    if k <= 16 {
      SmallPower(k - 1);
    } else {
      CutToNothing(k - 1);
    }
  }

  /** From 2^16 on nothing is left in 16 bits. */
  lemma {:induction false} CutToNothing(k: nat)
    requires k >= 16
    ensures Pow2(k) % LIMIT == 0
  {
    if k == 16 {
      SmallPower(15);
    } else {
      CutToNothing(k - 1);
      Doubled(Pow2(k - 1));
    }
  }

  lemma Doubled(x: nat)
    requires x % LIMIT == 0
    ensures 2 * x % LIMIT == 0
  {
    assert x == LIMIT * (x / LIMIT);
    assert 2 * x == LIMIT * (2 * (x / LIMIT));
  }

  lemma {:induction false} SmallPower(k: nat)
    requires k <= 15
    ensures Pow2(k) <= 32768 && (k == 15 ==> Pow2(k) == 32768)
  {
    assert Pow2(1) == 2 && Pow2(2) == 4 && Pow2(3) == 8 && Pow2(4) == 16 && Pow2(5) == 32 && Pow2(6) == 64 && Pow2(7) == 128;
    assert Pow2(8) == 256 && Pow2(9) == 512 && Pow2(10) == 1024 && Pow2(11) == 2048 && Pow2(12) == 4096;
    assert Pow2(13) == 8192 && Pow2(14) == 16384 && Pow2(15) == 32768;
  }

  /** Product and floor quotient, named so that proofs can treat them as symbols. */
  function Mul(a: int, b: int): int { a * b }

  function Div(x: int, p: int): int {
    if p > 0 then x / p else 0
  }

  /** State for a level: (n << K) cut to 16 bits, less n, cut to 16 bits. */
  function Level(k: nat, n: nat): nat {
    (Mul(n, Pow2(k)) % LIMIT - n) % LIMIT
  }

  /** Output for a state and an input: the 16-bit sum, plus half, divided by 2^K. */
  function Output(k: nat, state: nat, input: nat): int {
    Div((state + input) % LIMIT + Half(k), Pow2(k))
  }

  function Step(k: nat, state: nat, input: nat): nat {
    ((state + input) % LIMIT - Output(k, state, input)) % LIMIT
  }

  /** The int that the 16-bit value is promoted to can hold what it is shifted to. */
  ghost predicate ShiftDefined(k: nat, n: nat) {
    Mul(n, Pow2(k)) < 0x8000_0000
  }

  /** Up to K = 15 every 16-bit value can be shifted. */
  lemma ShiftAlwaysDefined(k: nat, n: nat)
    requires k <= 15 && n < LIMIT
    ensures ShiftDefined(k, n)
  {
    SmallPower(k);
    hide Mul, Pow2;
    MulMono(n, 65535, Pow2(k));
    assert Mul(65535, Pow2(k)) <= 65535 * 32768 by { Linear(Pow2(k)); }
  }

  lemma Linear(p: nat)
    ensures Mul(65535, p) == 65535 * p
  {
  }

  /** K is a template constant; an int can be shifted by at most 31. */
  class Ema {
    const k: nat
    var state: nat

    ghost predicate Valid()
      reads this
    {
      k <= 31 && state < LIMIT
    }

    constructor (k: nat, initial: nat)
      requires k <= 31 && initial < LIMIT && ShiftDefined(k, initial)
      ensures Valid() && this.k == k && state == Level(k, initial)
    {
      this.k := k;
      state := (initial * Pow2(k) % LIMIT - initial) % LIMIT;
    }

    method Reset(value: nat)
      requires Valid() && value < LIMIT && ShiftDefined(k, value)
      modifies this
      ensures Valid() && state == Level(k, value)
    {
      state := (value * Pow2(k) % LIMIT - value) % LIMIT;
    }

    method Filter(input: nat) returns (output: nat)
      requires Valid() && input < LIMIT
      modifies this
      ensures Valid() && output < LIMIT && output == Output(k, old(state), input) && state == Step(k, old(state), input)
      ensures output <= (old(state) + input) % LIMIT && state == (old(state) + input) % LIMIT - output
    {
      hide Mul, Pow2, Half, Div, Sum, Cut, Output, Step;
      FilterFacts(k, state, input);
      state := Sum(state, input);
      var quotient := Div(state + Half(k), Pow2(k));
      output := Cut(quotient);
      state := Cut(state - output);
    }
  }

  /** 16-bit sum and cut. */
  function Sum(a: nat, b: nat): nat { (a + b) % LIMIT }
  function Cut(x: int): nat { x % LIMIT }

  lemma FilterFacts(k: nat, state: nat, input: nat)
    ensures var x, q := Sum(state, input), Div(Sum(state, input) + Half(k), Pow2(k));
            && x == (state + input) % LIMIT < LIMIT && 0 <= q <= x && Cut(q) == q == Output(k, state, input)
            && Cut(x - q) == x - q == Step(k, state, input)
  {
    hide Mul, Div, Pow2, Half;
    var x := (state + input) % LIMIT;
    assert (x + 0) % LIMIT == x;
    StepFrom(k, x, 0, 0);
    assert Output(k, x, 0) == Output(k, state, input);
  }

  // ---- products and quotients ----

  lemma DivIs(x: int, p: int)
    requires p > 0
    ensures Mul(Div(x, p), p) <= x < Mul(Div(x, p), p) + p
  {
    assert x == p * (x / p) + x % p;
  }

  lemma {:induction false} MulMono(a: int, b: int, p: int)
    requires p >= 0
    ensures a <= b ==> Mul(a, p) <= Mul(b, p)
    ensures a < b ==> Mul(a, p) + p <= Mul(b, p)
    decreases b - a
  {
    if a < b {
      MulMono(a, b - 1, p);
      MulNext(b - 1, p);
    }
  }

  lemma MulNext(a: int, p: int)
    ensures Mul(a + 1, p) == Mul(a, p) + p
  {
  }

  lemma MulPlus(a: int, b: int, p: int)
    ensures Mul(a + b, p) == Mul(a, p) + Mul(b, p)
    ensures Mul(p, a + b) == Mul(p, a) + Mul(p, b)
  {
  }

  lemma MulOnes(a: int)
    ensures Mul(a, 1) == a && Mul(1, a) == a && Mul(0, a) == 0 && Mul(-1, a) == -a && Mul(a, 0) == 0
  {
  }

  lemma DivUnique(x: int, p: int, q: int)
    requires p > 0 && Mul(q, p) <= x < Mul(q, p) + p
    ensures Div(x, p) == q
  {
    hide Mul, Div;
    DivIs(x, p);
    MulMono(Div(x, p), q, p);
    MulMono(q, Div(x, p), p);
  }

  // ---- one step seen from a level ----

  /** 2^K and nHalf: half of the power, or none when the power is 1 or more than 16 bits. */
  lemma PowersOf(k: nat)
    ensures (Pow2(k) == 1 && Half(k) == 0) || (Pow2(k) == 2 * Half(k) && Half(k) >= 1) || (Pow2(k) > LIMIT && Half(k) == 0)
  {
    if k > 16 {
      LargePower(k);
    }
  }

  lemma {:induction false} LargePower(k: nat)
    requires k >= 17
    ensures Pow2(k) > LIMIT
  {
    if k == 17 {
      SmallPower(15);
    } else {
      LargePower(k - 1);
    }
  }

  /** The rounded quotient of an error `e`: the amount by which one step moves it. */
  ghost function Move(k: nat, e: int): int {
    Div(e + Half(k), Pow2(k))
  }

  /** A move has the sign of the error, never overshoots, and is nothing exactly near zero; from below it does not
      even reach beyond -h. */
  lemma MoveShrinks(k: nat, e: int)
    ensures var m, p, h := Move(k, e), Pow2(k), Half(k);
            && (e >= 0 ==> 0 <= m <= e) && (e <= 0 ==> e <= m <= 0)
            && (m == 0 <==> 0 <= e + h < p)
            && (e + h < 0 ==> e - m + h <= 0)
  {
    var m, p, h := Move(k, e), Pow2(k), Half(k);
    PowersOf(k);
    hide Mul, Div, Pow2, Half;
    DivIs(e + h, p);
    MulOnes(p);
    MulOnes(m);
    MulOnes(m + 1);
    MulOnes(p - 1);
    MulMono(m, -1, p);
    MulMono(1, m, p);
    MulMono(1, m, p - 1);
    MulMono(m + 1, 0, p - 1);
    MulPlus(1, p - 1, m);
    MulPlus(1, p - 1, m + 1);
    MulPlus(m, 1, p);
  }

  /** How far a state is from the level at which the output is `c` and nothing changes. */
  ghost function Error(k: nat, state: nat, c: nat): int {
    state - Mul(c, Pow2(k) - 1)
  }

  lemma MulPred(c: int, p: int)
    ensures Mul(c, p - 1) == Mul(c, p) - c
  {
  }

  /** When the sum does not wrap, whatever level `c` the step is seen from: the output differs from `c` by the
      move of the sum's distance from c * 2^K, and the error shrinks by that move. */
  lemma StepFrom(k: nat, state: nat, input: nat, c: nat)
    requires state + input < LIMIT
    ensures var e := state + input - Mul(c, Pow2(k));
            && Output(k, state, input) == c + Move(k, e) && 0 <= Output(k, state, input) <= state + input
            && Step(k, state, input) == state + input - Output(k, state, input)
            && Error(k, Step(k, state, input), c) == e - Move(k, e)
  {
    hide Mul, Div, Pow2, Half;
    var p, h, x := Pow2(k), Half(k), state + input;
    var e := x - Mul(c, p);
    var m := Move(k, e);
    assert x % LIMIT == x;
    DivIs(e + h, p);
    MulPlus(c, m, p);
    DivUnique(x + h, p, c + m);
    MoveShrinks(k, x);
    MulPred(c, p);
  }

  // ---- bounds ----

  /** Inputs between `lo` and `hi` with room for hi * 2^K in 16 bits: from a state between the levels of `lo` and
      `hi` nothing wraps, the output lies between `lo` and `hi`, and the state stays between the levels. */
  lemma StaysInRange(k: nat, lo: nat, hi: nat, state: nat, input: nat)
    requires lo <= input <= hi && Mul(hi, Pow2(k)) < LIMIT
    requires Error(k, state, lo) >= 0 >= Error(k, state, hi)
    ensures state + input < LIMIT
    ensures lo <= Output(k, state, input) <= hi && Output(k, state, input) <= state + input
    ensures Step(k, state, input) == state + input - Output(k, state, input)
    ensures Error(k, Step(k, state, input), lo) >= 0 >= Error(k, Step(k, state, input), hi)
  {
    hide Mul, Div, Pow2, Half, Move, Output, Step;
    MulPred(lo, Pow2(k));
    MulPred(hi, Pow2(k));
    StepFrom(k, state, input, lo);
    StepFrom(k, state, input, hi);
    MoveShrinks(k, state + input - Mul(lo, Pow2(k)));
    MoveShrinks(k, state + input - Mul(hi, Pow2(k)));
  }

  /** State after some inputs. */
  ghost function After(k: nat, state: nat, inputs: seq<nat>): nat {
    if inputs == [] then state else Step(k, After(k, state, inputs[..|inputs| - 1]), inputs[|inputs| - 1])
  }

  /** Over any sequence of inputs between `lo` and `hi`, started at a level between them: the state is between the
      levels after every one, and so, by `StaysInRange`, the next output is between `lo` and `hi` without wrap. */
  lemma {:induction false} RunStaysInRange(k: nat, lo: nat, hi: nat, initial: nat, inputs: seq<nat>)
    requires lo <= initial <= hi && Mul(hi, Pow2(k)) < LIMIT && (forall i :: 0 <= i < |inputs| ==> lo <= inputs[i] <= hi)
    ensures var s := After(k, Level(k, initial), inputs); Error(k, s, lo) >= 0 >= Error(k, s, hi)
    ensures inputs != [] ==>
              var s, x := After(k, Level(k, initial), inputs[..|inputs| - 1]), inputs[|inputs| - 1];
              s + x < LIMIT && lo <= Output(k, s, x) <= hi
  {
    hide Mul, Div, Pow2, Half, Output, Step, Level;
    if inputs == [] {
      LevelInRange(k, lo, hi, initial);
    } else {
      var front := inputs[..|inputs| - 1];
      RunStaysInRange(k, lo, hi, initial, front);
      StaysInRange(k, lo, hi, After(k, Level(k, initial), front), inputs[|inputs| - 1]);
    }
  }

  /** Constructor and Reset start exactly at the level of their value, when it fits. */
  lemma LevelInRange(k: nat, lo: nat, hi: nat, n: nat)
    requires lo <= n <= hi && Mul(hi, Pow2(k)) < LIMIT
    ensures Error(k, Level(k, n), n) == 0 && Error(k, Level(k, n), lo) >= 0 >= Error(k, Level(k, n), hi)
  {
    hide Mul, Pow2;
    var p := Pow2(k);
    MulMono(n, hi, p);
    MulPred(n, p);
    MulOnes(p);
    MulOnes(p - 1);
    MulMono(0, n, p);
    MulMono(0, n, p - 1);
    MulMono(lo, n, p - 1);
    MulMono(n, hi, p - 1);
  }

  // ---- convergence ----

  /** State after `n` times the same input. */
  ghost function Iterate(k: nat, state: nat, c: nat, n: nat): nat
    decreases n
  {
    if n == 0 then state else Iterate(k, Step(k, state, c), c, n - 1)
  }

  /** The output is the input and the state no longer changes. */
  ghost predicate Settled(k: nat, state: nat, c: nat) {
    Output(k, state, c) == c && Step(k, state, c) == state
  }

  function Abs(x: int): nat {
    if x < 0 then -x else x
  }

  /** The values a constant input may have: c * 2^K exceeds 65535 by no more than half of 2^K. */
  ghost predicate InReach(k: nat, c: nat) {
    Mul(c, Pow2(k)) <= 65535 + Half(k)
  }

  /** A step without wrap brings the state strictly closer to the level of `c`, and still without wrap, or is
      already settled there. */
  lemma StepApproaches(k: nat, state: nat, c: nat)
    requires state + c < LIMIT && InReach(k, c)
    ensures Step(k, state, c) + c < LIMIT
    ensures Settled(k, state, c) || Abs(Error(k, Step(k, state, c), c)) < Abs(Error(k, state, c))
  {
    PowersOf(k);
    hide Mul, Div, Pow2, Half, Move, Output, Step;
    StepFrom(k, state, c, c);
    MulPred(c, Pow2(k));
    MoveShrinks(k, Error(k, state, c));
  }

  lemma {:induction false} SettledForever(k: nat, state: nat, c: nat, n: nat)
    requires Settled(k, state, c)
    ensures Iterate(k, state, c, n) == state
  {
    hide Output, Step;
    if n > 0 {
      SettledForever(k, Step(k, state, c), c, n - 1);
    }
  }

  /** With a constant input and no wrap at the start, the filter settles on exactly that value in at most as many
      steps as the initial error, and stays there. */
  lemma {:induction false} Converges(k: nat, state: nat, c: nat, n: nat)
    requires state + c < LIMIT && InReach(k, c) && n >= Abs(Error(k, state, c))
    ensures Settled(k, Iterate(k, state, c, n), c)
    decreases n
  {
    hide Mul, Pow2, Half, Output, Step, Settled, InReach;
    StepApproaches(k, state, c);
    if Settled(k, state, c) {
      SettledForever(k, state, c, n);
    } else {
      Converges(k, Step(k, state, c), c, n - 1);
    }
  }

  /** Even when the first sum wraps, the second does not. */
  lemma WrapsOnce(k: nat, state: nat, c: nat)
    requires LIMIT <= state + c && state < LIMIT && c < LIMIT && InReach(k, c)
    ensures Step(k, state, c) + c < LIMIT
  {
    hide Mul, Div, Pow2, Half, Move, Output, Step;
    var x := state + c - LIMIT;
    SumWrapped(k, state, c);
    StepFrom(k, x, 0, 0);
    MulOnes(Pow2(k));
    if Pow2(k) > 1 {
      TwiceFits(k, c);
    } else {
      MoveOfOne(k, x);
    }
  }

  lemma SumWrapped(k: nat, state: nat, c: nat)
    requires LIMIT <= state + c < 2 * LIMIT
    ensures Step(k, state, c) == Step(k, state + c - LIMIT, 0)
  {
    hide Mul, Div, Pow2, Half;
    assert (state + c) % LIMIT == (state + c - LIMIT + 0) % LIMIT;
  }

  lemma MoveOfOne(k: nat, x: int)
    requires Pow2(k) == 1
    ensures Move(k, x) == x
  {
    PowersOf(k);
    hide Mul, Div, Pow2, Half;
    MulOnes(x);
    DivUnique(x, 1, x);
  }

  /** Any value in reach is at most half of the range, unless K is 0. */
  lemma TwiceFits(k: nat, c: nat)
    requires InReach(k, c) && Pow2(k) > 1
    ensures 2 * c <= LIMIT
  {
    PowersOf(k);
    hide Mul, Pow2, Half;
    var h := Half(k);
    if h == 0 {
      MulMono(1, c, Pow2(k));
      MulOnes(Pow2(k));
      return;
    }
    MulPlus(c, c, h);
    MulPlus(h, h, c);
    assert Mul(c, Pow2(k)) == Mul(2 * c, h);
    MulMono(32768 * 2, 2 * c, h);
    assert 2 * c > LIMIT ==> Mul(LIMIT, h) + h <= Mul(2 * c, h);
    assert Mul(LIMIT, h) >= LIMIT by { LimitTimes(h); }
  }

  lemma LimitTimes(h: nat)
    requires h >= 1
    ensures Mul(LIMIT, h) >= LIMIT
  {
  }

  /** Beyond reach the output always stays below the input. */
  lemma OutOfReach(k: nat, state: nat, c: nat)
    requires !InReach(k, c)
    ensures Output(k, state, c) < c
  {
    hide Mul, Div, Pow2, Half;
    DivIs((state + c) % LIMIT + Half(k), Pow2(k));
    MulMono(c, Output(k, state, c), Pow2(k));
  }

  /** For one: with K = 1 a filter that was set to 65535 and is fed 65535 puts out 32767. */
  lemma MaximumIsLost()
    ensures !InReach(1, 65535) && Output(1, Level(1, 65535), 65535) == 32767
  {
    assert Pow2(1) == 2 && Half(1) == 1;
  }

  /** Some number of steps after which the filter has settled. */
  ghost predicate Settles(k: nat, state: nat, c: nat) {
    exists n :: Settled(k, Iterate(k, state, c, n), c)
  }

  /** Exactly when it converges: from every state the output becomes the constant input `c` and stays so, if and
      only if `c` is in reach. */
  lemma ConvergesIff(k: nat, c: nat)
    requires c < LIMIT
    ensures (forall state: nat :: state < LIMIT ==> Settles(k, state, c)) <==> InReach(k, c)
  {
    hide Mul, Pow2, Half, Output, Step, InReach, Error;
    if InReach(k, c) {
      forall state: nat | state < LIMIT ensures Settles(k, state, c) {
        SettlesFrom(k, state, c);
      }
    } else {
      forall n ensures !Settled(k, Iterate(k, 0, c, n), c) {
        OutOfReach(k, Iterate(k, 0, c, n), c);
      }
      assert !Settles(k, 0, c);
    }
  }

  lemma SettlesFrom(k: nat, state: nat, c: nat)
    requires c < LIMIT && state < LIMIT && InReach(k, c)
    ensures Settles(k, state, c)
  {
    hide Mul, Pow2, Half, Output, Step, InReach, Error, Settled;
    if state + c < LIMIT {
      Converges(k, state, c, Abs(Error(k, state, c)));
    } else {
      var s := Step(k, state, c);
      WrapsOnce(k, state, c);
      var n := Abs(Error(k, s, c));
      Converges(k, s, c, n);
      assert Iterate(k, state, c, n + 1) == Iterate(k, s, c, n);
    }
  }
}
