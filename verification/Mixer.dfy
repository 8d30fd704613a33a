/**
 * The generator's random source: a 64-bit counter with an odd increment, passed through
 * the SplitMix64 finalizer. Words are naturals below 2^64 and products wrap explicitly.
 */
module Mixer {

  const WORD: nat := 0x1_0000_0000_0000_0000
  const GAMMA: nat := 0x9e37_79b9_7f4a_7c15
  const MUL1: nat := 0xbf58_476d_1ce4_e5b9
  const MUL2: nat := 0x94d0_49bb_1331_11eb
  const SEED_SALT: nat := 0xd1b5_4a32_d192_ed03

  type word = n: nat | n < WORD

  /** Bitwise exclusive or. */
  function Xor(a: nat, b: nat): nat {
    if a == 0 && b == 0 then 0 else 2 * Xor(a / 2, b / 2) + (a % 2 + b % 2) % 2
  }

  /** `z >> k`. */
  function ShiftRight(z: nat, k: nat): nat
    decreases k
  {
    if k == 0 then z else ShiftRight(z / 2, k - 1)
  }

  function Pow2(k: nat): nat {
    if k == 0 then 1 else 2 * Pow2(k - 1)
  }

  lemma {:induction false} XorFits(a: nat, b: nat, k: nat)
    requires a < Pow2(k) && b < Pow2(k)
    ensures Xor(a, b) < Pow2(k)
  {
    if k > 0 {
      XorFits(a / 2, b / 2, k - 1);
    }
  }

  lemma {:induction false} ShiftShrinks(z: nat, k: nat)
    ensures ShiftRight(z, k) <= z
    ensures k > 0 && z > 0 ==> ShiftRight(z, k) < z
    decreases k
  {
    if k > 0 {
      ShiftShrinks(z / 2, k - 1);
    }
  }

  lemma {:induction false} PowSum(j: nat, k: nat)
    ensures Pow2(j + k) == Pow2(j) * Pow2(k)
  {
    if j > 0 {
      PowSum(j - 1, k);
      assert 2 * Pow2(j - 1) * Pow2(k) == 2 * (Pow2(j - 1) * Pow2(k));
    }
  }

  lemma WordBits()
    ensures Pow2(64) == WORD
  {
    assert Pow2(2) == 4;
    PowSum(2, 2);
    PowSum(4, 4);
    PowSum(8, 8);
    PowSum(16, 16);
    PowSum(32, 32);
  }

  function XorShift(z: word, k: nat): (r: word) {
    WordBits();
    ShiftShrinks(z, k);
    XorFits(z, ShiftRight(z, k), 64);
    Xor(z, ShiftRight(z, k))
  }

  function Scramble(z: word, k: nat, c: nat): word {
    XorShift(z, k) * c % WORD
  }

  function Mix(z: word): word {
    XorShift(Scramble(Scramble(z, 30, MUL1), 27, MUL2), 31)
  }

  /** The counter before it is mixed. */
  function Advance(random: word): word {
    (random + GAMMA) % WORD
  }

  // ----- Mix is a permutation -----

  lemma SplitLowBit(x: nat, p: nat, y: nat, q: nat)
    requires p < 2 && q < 2 && 2 * x + p == 2 * y + q
    ensures x == y && p == q
  {
  }

  lemma XorLowBit(a: nat, b: nat)
    ensures Xor(a, b) == 2 * Xor(a / 2, b / 2) + (a % 2 + b % 2) % 2
  {
  }

  lemma SameHalves(a: nat, b: nat, c: nat)
    requires a / 2 == b / 2 && (a % 2 + c % 2) % 2 == (b % 2 + c % 2) % 2
    ensures a == b
  {
  }

  lemma HalvesAreLess(a: nat, b: nat, c: nat)
    requires a + b + c > 0
    ensures a / 2 + b / 2 + c / 2 < a + b + c
  {
  }

  lemma {:induction false} XorCancel(a: nat, b: nat, c: nat)
    requires Xor(a, c) == Xor(b, c)
    ensures a == b
    decreases a + b + c
  {
    hide Xor;
    if a + b + c > 0 {
      XorLowBit(a, c);
      XorLowBit(b, c);
      SplitLowBit(Xor(a / 2, c / 2), (a % 2 + c % 2) % 2, Xor(b / 2, c / 2), (b % 2 + c % 2) % 2);
      HalvesAreLess(a, b, c);
      XorCancel(a / 2, b / 2, c / 2);
      SameHalves(a, b, c);
    }
  }

  lemma {:induction false} ShiftXor(a: nat, b: nat, k: nat)
    ensures ShiftRight(Xor(a, b), k) == Xor(ShiftRight(a, k), ShiftRight(b, k))
    decreases k
  {
    if k > 0 {
      assert Xor(a, b) / 2 == Xor(a / 2, b / 2);
      ShiftXor(a / 2, b / 2, k - 1);
    }
  }

  /** A word is determined by its xor with its own shift: the shifted copy is shorter. */
  lemma {:induction false} XorShiftInjective(x: nat, y: nat, k: nat)
    requires k > 0
    requires Xor(x, ShiftRight(x, k)) == Xor(y, ShiftRight(y, k))
    ensures x == y
    decreases x + y
  {
    if x + y > 0 {
      var s, t := ShiftRight(x, k), ShiftRight(y, k);
      ShiftXor(x, s, k);
      ShiftXor(y, t, k);
      ShiftShrinks(x, k);
      ShiftShrinks(y, k);
      XorShiftInjective(s, t, k);
      XorCancel(x, y, s);
    }
  }

  /** Multiplying by a constant that has an inverse modulo 2^64 loses nothing. */
  lemma DifferenceVanishes(d: int, carry: int, inverse: int, excess: int)
    requires -(WORD as int) < d < WORD
    requires d * (excess * WORD + 1) == carry * inverse * WORD
    ensures d == 0
  {
    var t := carry * inverse - excess * d;
    assert d == t * WORD by {
      assert d * (excess * WORD + 1) == d * excess * WORD + d;
    }
  }

  lemma Multiples(d: int, c: int, carry: int, inverse: int, excess: int)
    requires -(WORD as int) < d < WORD
    requires d * c == carry * WORD && c * inverse == excess * WORD + 1
    ensures d == 0
  {
    assert d * (c * inverse) == (d * c) * inverse;
    assert (carry * WORD) * inverse == carry * inverse * WORD;
    DifferenceVanishes(d, carry, inverse, excess);
  }

  lemma Carries(x: nat, y: nat, c: nat) returns (carry: int)
    requires x * c % WORD == y * c % WORD
    ensures (x - y) * c == carry * WORD
  {
    carry := x * c / WORD - y * c / WORD;
    assert x * c - y * c == (x - y) * c;
  }

  lemma OddMultiplier(x: word, y: word, c: nat, inverse: nat, excess: nat)
    requires c * inverse == excess * WORD + 1
    requires x * c % WORD == y * c % WORD
    ensures x == y
  {
    var carry := Carries(x, y, c);
    Multiples(x - y, c, carry, inverse, excess);
  }

  lemma ScrambleInjective(x: word, y: word, k: nat, c: nat, inverse: nat, excess: nat)
    requires k > 0 && c * inverse == excess * WORD + 1
    requires Scramble(x, k, c) == Scramble(y, k, c)
    ensures x == y
  {
    OddMultiplier(XorShift(x, k), XorShift(y, k), c, inverse, excess);
    XorShiftInjective(x, y, k);
  }

  const INVERSE1: nat := 0x96de_1b17_3f11_9089
  const INVERSE2: nat := 0x3196_42b2_d24d_8ec3
  const INVERSE_GAMMA: nat := 0xf1de_83e1_9937_733d
  const EXCESS1: nat := 0x70c3_bca7_8f27_f46c
  const EXCESS2: nat := 0x1cd3_36ed_a85f_1453
  const EXCESS_GAMMA: nat := 0x957b_bf35_006e_d677

  lemma Inverses()
    ensures MUL1 * INVERSE1 == EXCESS1 * WORD + 1
    ensures MUL2 * INVERSE2 == EXCESS2 * WORD + 1
    ensures GAMMA * INVERSE_GAMMA == EXCESS_GAMMA * WORD + 1
  {
  }

  lemma MixInjective(x: word, y: word)
    requires Mix(x) == Mix(y)
    ensures x == y
  {
    Inverses();
    var x1, y1 := Scramble(x, 30, MUL1), Scramble(y, 30, MUL1);
    XorShiftInjective(Scramble(x1, 27, MUL2), Scramble(y1, 27, MUL2), 31);
    ScrambleInjective(x1, y1, 27, MUL2, INVERSE2, EXCESS2);
    ScrambleInjective(x, y, 30, MUL1, INVERSE1, EXCESS1);
  }

  // ----- Distinct cases, distinct steps -----

  /** The starting state of one case: two mixing stages keep seed and index apart. */
  function Start(seed: word, index: word): word {
    Mix(XorWords(Mix(XorWords(seed, SEED_SALT)), index))
  }

  function XorWords(a: word, b: word): word {
    WordBits();
    XorFits(a, b, 64);
    Xor(a, b)
  }

  lemma {:induction false} XorCommutes(a: nat, b: nat)
    ensures Xor(a, b) == Xor(b, a)
  {
    if a + b > 0 {
      XorCommutes(a / 2, b / 2);
    }
  }

  /** One seed gives every case index its own start; one index gives every seed its own start. */
  lemma StartsAreDistinct(seed: word, index: word, other: word)
    ensures Start(seed, index) == Start(seed, other) ==> index == other
    ensures Start(seed, index) == Start(other, index) ==> seed == other
  {
    var s, t := Mix(XorWords(seed, SEED_SALT)), Mix(XorWords(other, SEED_SALT));
    if Start(seed, index) == Start(seed, other) {
      MixInjective(XorWords(s, index), XorWords(s, other));
      XorCommutes(s, index);
      XorCommutes(s, other);
      XorCancel(index, other, s);
    }
    if Start(seed, index) == Start(other, index) {
      MixInjective(XorWords(s, index), XorWords(t, index));
      XorCancel(s, t, index);
      MixInjective(XorWords(seed, SEED_SALT), XorWords(other, SEED_SALT));
      XorCancel(seed, other, SEED_SALT);
    }
  }

  /** The counter after `steps` calls of next(). */
  function Counter(random: word, steps: nat): word {
    if steps == 0 then random else Advance(Counter(random, steps - 1))
  }

  // ----- Every word is drawn -----

  /** The word whose xor with its own shift is y. */
  function UnXorShift(y: nat, k: nat): nat
    requires k > 0
  {
    ShiftShrinks(y, k);
    if y == 0 then 0 else Xor(y, UnXorShift(ShiftRight(y, k), k))
  }

  lemma LowBit(x: nat, half: nat, bit: nat)
    requires x == 2 * half + bit && bit < 2
    ensures x / 2 == half && x % 2 == bit
  {
  }

  lemma BitTwice(a: nat, b: nat)
    requires a < 2 && b < 2
    ensures ((a + b) % 2 + b) % 2 == a
  {
  }

  lemma {:induction false} XorTwice(a: nat, b: nat)
    ensures Xor(Xor(a, b), b) == a
  {
    hide Xor;
    XorLowBit(a, b);
    XorLowBit(Xor(a, b), b);
    LowBit(Xor(a, b), Xor(a / 2, b / 2), (a % 2 + b % 2) % 2);
    if a + b > 0 {
      XorTwice(a / 2, b / 2);
      BitTwice(a % 2, b % 2);
    } else {
      XorLowBit(0, 0);
    }
  }

  lemma {:induction false} XorShiftReaches(y: nat, k: nat)
    requires k > 0
    ensures Xor(UnXorShift(y, k), ShiftRight(UnXorShift(y, k), k)) == y
  {
    if y == 0 {
      ShiftShrinks(0, k);
    } else {
      ShiftShrinks(y, k);
      var rest := UnXorShift(ShiftRight(y, k), k);
      XorShiftReaches(ShiftRight(y, k), k);
      ShiftXor(y, rest, k);
      XorTwice(rest, ShiftRight(rest, k));
      XorTwice(y, rest);
    }
  }

  lemma {:induction false} UnXorShiftFits(y: nat, k: nat, bits: nat)
    requires k > 0 && y < Pow2(bits)
    ensures UnXorShift(y, k) < Pow2(bits)
    decreases y
  {
    if y > 0 {
      ShiftShrinks(y, k);
      UnXorShiftFits(ShiftRight(y, k), k, bits);
      XorFits(y, UnXorShift(ShiftRight(y, k), k), bits);
    }
  }

  lemma Unshift(y: word, k: nat) returns (z: word)
    requires k > 0
    ensures XorShift(z, k) == y
  {
    WordBits();
    UnXorShiftFits(y, k, 64);
    XorShiftReaches(y, k);
    z := UnXorShift(y, k);
  }

  lemma Unmultiply(y: word, c: nat, inverse: nat, excess: nat) returns (z: word)
    requires c * inverse == excess * WORD + 1
    ensures z * c % WORD == y
  {
    z := y * inverse % WORD;
    var laps := y * inverse / WORD;
    assert z == y * inverse - laps * WORD;
    assert z * c == y * (c * inverse) - laps * c * WORD;
    assert y * (excess * WORD + 1) == y * excess * WORD + y;
    Remainder(z * c, y * excess - laps * c, y);
  }

  lemma Remainder(x: nat, laps: int, y: word)
    requires x == laps * WORD + y
    ensures x % WORD == y
  {
  }

  lemma Unscramble(y: word, k: nat, c: nat, inverse: nat, excess: nat) returns (z: word)
    requires k > 0 && c * inverse == excess * WORD + 1
    ensures Scramble(z, k, c) == y
  {
    var product := Unmultiply(y, c, inverse, excess);
    z := Unshift(product, k);
  }

  /** The finalizer leaves no word out. */
  lemma MixReaches(y: word) returns (z: word)
    ensures Mix(z) == y
  {
    Inverses();
    var last := Unshift(y, 31);
    var middle := Unscramble(last, 27, MUL2, INVERSE2, EXCESS2);
    z := Unscramble(middle, 30, MUL1, INVERSE1, EXCESS1);
  }

  lemma Retreat(counter: word) returns (start: word)
    ensures Advance(start) == counter
  {
    start := if counter < GAMMA then counter + WORD - GAMMA else counter - GAMMA;
  }

  /** For every seed, some case index makes any given word the first one drawn. */
  lemma EveryWordIsDrawn(seed: word, y: word) returns (index: word)
    ensures Mix(Advance(Start(seed, index))) == y
  {
    hide Mix, Xor;
    var counter := MixReaches(y);
    var start := Retreat(counter);
    var mixed := MixReaches(start);
    var s := Mix(XorWords(seed, SEED_SALT));
    index := XorWords(mixed, s);
    XorTwice(mixed, s);
    XorCommutes(s, index);
  }

  /** The value the call number `steps` (counting from 1) returns. */
  function Output(random: word, steps: nat): word
    requires steps > 0
  {
    Mix(Counter(random, steps))
  }

  lemma {:induction false} CounterClosedForm(random: word, steps: nat) returns (laps: nat)
    ensures Counter(random, steps) + laps * WORD == random + steps * GAMMA
  {
    laps := 0;
    if steps > 0 {
      var before := CounterClosedForm(random, steps - 1);
      laps := before + (Counter(random, steps - 1) + GAMMA) / WORD;
    }
  }

  /** Counters fewer than 2^64 steps apart differ. */
  lemma CountersDiffer(random: word, i: nat, j: nat)
    requires i < j < i + WORD
    ensures Counter(random, i) != Counter(random, j)
  {
    var p := CounterClosedForm(random, i);
    var q := CounterClosedForm(random, j);
    if Counter(random, i) == Counter(random, j) {
      Inverses();
      Multiples(j - i, GAMMA, q - p, INVERSE_GAMMA, EXCESS_GAMMA);
    }
  }

  /** No output repeats within 2^64 consecutive calls. */
  lemma OutputsDoNotRepeat(random: word, i: nat, j: nat)
    requires 0 < i < j < i + WORD
    ensures Output(random, i) != Output(random, j)
  {
    if Output(random, i) == Output(random, j) {
      MixInjective(Counter(random, i), Counter(random, j));
      CountersDiffer(random, i, j);
    }
  }
}
