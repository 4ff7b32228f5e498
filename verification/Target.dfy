/**
 Proof-of-work targets: 8 bits of chain length followed by 24 bits of fractional length.
 How the target moves, what subsidy it earns and how much work a block at it stands for.
 */
module Target {
  import opened Common
  import opened Amounts
  import opened Arith

  const FRACTION: nat := 0x100_0000
  const WORD: nat := 0x1_0000_0000
  const MIN_LENGTH: nat := 6
  const DIFFICULTY_MIN: nat := 0x1_0000_0000
  const DIFFICULTY_THRESHOLD: nat := 0x100_0000_0000
  const DIFFICULTY_MAX: nat := 0x100_0000_0000_0000
  const WORK_TRANSITION_RATIO: nat := 32

  function Length(bits: nat): nat {
    bits / FRACTION
  }

  function Fractional(bits: nat): nat {
    bits % FRACTION
  }

  function Scale(x: nat, bits: nat): nat
    requires bits > 0
  {
    x * FRACTION / bits
  }

  /** The subsidy of a block, 999 coins over the square of the target length, rounded to a cent. */
  function Mint(bits: nat): nat {
    if Length(bits) < MIN_LENGTH then
      0
    else
      var limit: nat := 999 * COIN;
      var mint: nat := Scale(Scale(limit, bits), bits) / CENT * CENT;
      if mint > limit then 0 else mint
  }

  // ---------- fractional difficulty ----------

  function FractionalDifficulty(bits: nat): nat {
    DIFFICULTY_MAX / (FRACTION - Fractional(bits))
  }

  /** The fractional length that stands for a difficulty; as wide as FRACTION only beyond the maximum. */
  function FractionFor(difficulty: nat): nat
    requires difficulty >= DIFFICULTY_MIN
  {
    FRACTION - DIFFICULTY_MAX / difficulty
  }

  /** A length byte and a fraction joined bit by bit: a fraction too wide sets the lowest length bit. */
  function Join(length: nat, fraction: nat): nat
    requires fraction <= FRACTION
  {
    if fraction < FRACTION then length * FRACTION + fraction
    else if length % 2 == 0 then (length + 1) * FRACTION
    else length * FRACTION
  }

  method SetFractionalDifficulty(difficulty: nat, bits: nat) returns (ok: bool, bits': nat)
    requires bits < WORD
    ensures ok <==> difficulty >= DIFFICULTY_MIN
    ensures !ok ==> bits' == bits
    ensures ok ==> bits' == Join(Length(bits), FractionFor(difficulty))
    ensures ok && difficulty <= DIFFICULTY_MAX ==>
              Length(bits') == Length(bits) && Fractional(bits') == FractionFor(difficulty)
  {
    bits' := bits;
    if difficulty < DIFFICULTY_MIN {
      return false, bits';
    }
    DivMono(DIFFICULTY_MIN, difficulty, DIFFICULTY_MAX);
    var fractional := DIFFICULTY_MAX / difficulty;
    if fractional > FRACTION {
      return false, bits';
    }
    fractional := FRACTION - fractional;
    bits' := Join(Length(bits), fractional);
    if difficulty <= DIFFICULTY_MAX {
      DivMono(difficulty, DIFFICULTY_MAX, DIFFICULTY_MAX);
    }
    ok := true;
  }

  lemma DifficultyRange(bits: nat)
    ensures DIFFICULTY_MIN <= FractionalDifficulty(bits) <= DIFFICULTY_MAX
  {
    var d := FRACTION - Fractional(bits);
    DivMono(d, FRACTION, DIFFICULTY_MAX);
    DivMono(1, d, DIFFICULTY_MAX);
  }

  /** Reading off a fractional difficulty and setting it again changes nothing. */
  lemma SetAfterGet(bits: nat)
    requires bits < WORD
    ensures FractionalDifficulty(bits) >= DIFFICULTY_MIN
    ensures FractionFor(FractionalDifficulty(bits)) == Fractional(bits)
    ensures Join(Length(bits), FractionFor(FractionalDifficulty(bits))) == bits
  {
    DifficultyRange(bits);
    var d := FRACTION - Fractional(bits);
    var q := DIFFICULTY_MAX / d;
    assert d * q == q * d <= DIFFICULTY_MAX < q * d + d <= q * d + q == (d + 1) * q;
    DivExact(DIFFICULTY_MAX, q, d);
  }

  // ---------- the next target ----------

  /** Big-number division, which rounds toward zero. The dividend is never negative here. */
  function TruncDiv(n: nat, d: int): int
    requires d != 0
  {
    if d > 0 then n / d else -(n / -d)
  }

  function Clamp(difficulty: int): nat {
    if difficulty > DIFFICULTY_MAX then DIFFICULTY_MAX
    else if difficulty < DIFFICULTY_MIN then DIFFICULTY_MIN
    else difficulty
  }

  function Divisor(interval: nat, spacing: nat, actual: int): int {
    (interval - 1) * spacing + actual + actual
  }

  /** The difficulty after one exponential step toward the target spacing. */
  function NextDifficulty(bits: nat, interval: nat, spacing: nat, actual: int): (r: nat)
    ensures DIFFICULTY_MIN <= r <= DIFFICULTY_MAX
    requires Divisor(interval, spacing, actual) != 0
  {
    Clamp(TruncDiv(FractionalDifficulty(bits) * ((interval + 1) * spacing), Divisor(interval, spacing, actual)))
  }

  /** A target moved to a new difficulty: up a length past the threshold, down a length at the minimum. */
  function Step(bits: nat, difficulty: nat): nat
    requires difficulty >= DIFFICULTY_MIN
  {
    if difficulty > DIFFICULTY_THRESHOLD then
      Join(Length((bits + FRACTION) % WORD), FractionFor(DIFFICULTY_MIN))
    else if difficulty == DIFFICULTY_MIN && Length(bits) > MIN_LENGTH then
      Join(Length(bits) - 1, FractionFor(DIFFICULTY_THRESHOLD))
    else
      Join(Length(bits), FractionFor(difficulty))
  }

  lemma LengthDown(bits: nat)
    requires Length(bits) > 0
    ensures bits >= FRACTION && Length(bits - FRACTION) == Length(bits) - 1
  {
  }

  /** The next target. Only a divisor of zero makes it fail. */
  method GetNext(bits: nat, interval: nat, spacing: nat, actual: int) returns (ok: bool, next: nat)
    requires bits < WORD
    ensures ok <==> Divisor(interval, spacing, actual) != 0
    ensures ok ==> next == Step(bits, NextDifficulty(bits, interval, spacing, actual))
  {
    next := bits;
    if Divisor(interval, spacing, actual) == 0 {
      return false, next;
    }
    hide NextDifficulty, FractionFor, Join, Length;
    var difficulty := NextDifficulty(bits, interval, spacing, actual);
    if difficulty > DIFFICULTY_THRESHOLD {
      difficulty := DIFFICULTY_MIN;
      next := (next + FRACTION) % WORD;
    } else if difficulty == DIFFICULTY_MIN && Length(next) > MIN_LENGTH {
      difficulty := DIFFICULTY_THRESHOLD;
      LengthDown(next);
      next := next - FRACTION;
    }
    ok, next := SetFractionalDifficulty(difficulty, next);
  }

  predicate InRange(bits: nat) {
    MIN_LENGTH <= Length(bits) < 255
  }

  lemma FractionForRange(difficulty: nat)
    requires DIFFICULTY_MIN <= difficulty <= DIFFICULTY_MAX
    ensures FractionFor(difficulty) < FRACTION
    ensures FractionFor(difficulty) == 0 <==> difficulty == DIFFICULTY_MIN
  {
    DivMono(difficulty, DIFFICULTY_MAX, DIFFICULTY_MAX);
    if difficulty > DIFFICULTY_MIN {
      DivMono(DIFFICULTY_MIN + 1, difficulty, DIFFICULTY_MAX);
    }
  }

  lemma FractionForMonotone(d1: nat, d2: nat)
    requires DIFFICULTY_MIN <= d1 <= d2
    ensures FractionFor(d1) <= FractionFor(d2)
  {
    DivMono(d1, d2, DIFFICULTY_MAX);
  }

  /** The length moves by at most one and never falls below the minimum. */
  lemma StepBounds(bits: nat, difficulty: nat)
    requires InRange(bits) && DIFFICULTY_MIN <= difficulty <= DIFFICULTY_MAX
    ensures MIN_LENGTH <= Length(Step(bits, difficulty)) && Step(bits, difficulty) < WORD
    ensures Length(bits) - 1 <= Length(Step(bits, difficulty)) <= Length(bits) + 1
  {
    FractionForRange(difficulty);
  }

  lemma StepMonotone(bits: nat, d1: nat, d2: nat)
    requires InRange(bits) && DIFFICULTY_MIN <= d1 <= d2 <= DIFFICULTY_MAX
    ensures Step(bits, d1) <= Step(bits, d2)
    ensures d1 == DIFFICULTY_MIN < d2 ==> Step(bits, d1) < Step(bits, d2)
  {
    hide FractionFor;
    FractionForRange(d1);
    FractionForRange(d2);
    FractionForRange(DIFFICULTY_MIN);
    FractionForRange(DIFFICULTY_THRESHOLD);
    FractionForMonotone(d1, d2);
  }

  /**
   Where a step lands. Past the threshold the length grows by one and the difficulty starts at
   the minimum; at the minimum, above the shortest length, the length shrinks by one and the
   difficulty is at the threshold; otherwise the length stays, with the least fraction that is
   as difficult.
   */
  lemma StepLands(bits: nat, difficulty: nat)
    requires InRange(bits) && DIFFICULTY_MIN <= difficulty <= DIFFICULTY_MAX
    ensures var next := Step(bits, difficulty);
            if difficulty > 256 * DIFFICULTY_MIN then
              Length(next) == Length(bits) + 1 && FractionalDifficulty(next) == DIFFICULTY_MIN && Fractional(next) == 0
            else if difficulty == DIFFICULTY_MIN && Length(bits) > 6 then
              Length(next) == Length(bits) - 1 && FractionalDifficulty(next) == 256 * DIFFICULTY_MIN
            else
              && Length(next) == Length(bits)
              && forall f :: 0 <= f < FRACTION ==> (Fractional(next) <= f <==> difficulty <= FractionalDifficulty(f))
  {
    hide FractionFor;
    FractionForRange(difficulty);
    FractionForRange(DIFFICULTY_MIN);
    FractionForRange(DIFFICULTY_THRESHOLD);
    ThresholdFraction();
    forall f | 0 <= f < FRACTION
      ensures FractionFor(difficulty) <= f <==> difficulty <= FractionalDifficulty(f)
    {
      FractionForIsLeast(difficulty, f);
    }
  }

  /** From the start of a length, a step down lowers the target by one part in 256 of a length. */
  lemma StepDown(bits: nat)
    requires InRange(bits) && Fractional(bits) == 0 && Length(bits) > MIN_LENGTH
    ensures Step(bits, DIFFICULTY_MIN) == bits - 0x1_0000
  {
    FractionForRange(DIFFICULTY_THRESHOLD);
    ThresholdFraction();
  }

  lemma ThresholdFraction()
    ensures FractionFor(DIFFICULTY_THRESHOLD) == FRACTION - 0x1_0000
    ensures forall bits {:trigger FractionalDifficulty(bits)} ::
              Fractional(bits) == FRACTION - 0x1_0000 ==> FractionalDifficulty(bits) == DIFFICULTY_THRESHOLD
  {
  }

  /** The fraction set for a difficulty is the least one that is as difficult. */
  lemma FractionForIsLeast(difficulty: nat, fraction: nat)
    requires DIFFICULTY_MIN <= difficulty <= DIFFICULTY_MAX && fraction < FRACTION
    ensures FractionFor(difficulty) <= fraction <==> difficulty <= FractionalDifficulty(fraction)
    ensures FractionalDifficulty(fraction) == DIFFICULTY_MAX / (FRACTION - fraction)
  {
    var d, q := FRACTION - fraction, DIFFICULTY_MAX / difficulty;
    assert fraction % FRACTION == fraction;
    DivMul(DIFFICULTY_MAX, difficulty);
    DivMul(DIFFICULTY_MAX, d);
    if d <= q {
      MulGe(d, q, difficulty);
      DivLower(DIFFICULTY_MAX, d, difficulty);
    } else if difficulty <= DIFFICULTY_MAX / d {
      MulGe(difficulty, DIFFICULTY_MAX / d, d);
      DivLower(DIFFICULTY_MAX, difficulty, d);
    }
  }

  /**
   One exponential step: with the actual spacing counted twice among interval + 1, the next
   difficulty is the quotient of the expected time by the counted one, within its limits.
   */
  lemma NextDifficultyIs(bits: nat, interval: nat, spacing: nat, actual: int)
    requires (interval - 1) * spacing + 2 * actual > 0
    ensures Divisor(interval, spacing, actual) != 0
    ensures var counted := (interval - 1) * spacing + 2 * actual;
            var expected := FractionalDifficulty(bits) * (interval + 1) * spacing;
            var next := NextDifficulty(bits, interval, spacing, actual);
            && (next > DIFFICULTY_MIN ==> next * counted <= expected)
            && (next < DIFFICULTY_MAX ==> expected < (next + 1) * counted)
  {
    hide NextDifficulty, FractionalDifficulty, Clamp, TruncDiv;
    var d: nat := (interval - 1) * spacing + 2 * actual;
    var n := FractionalDifficulty(bits) * ((interval + 1) * spacing);
    assert d == Divisor(interval, spacing, actual);
    NextDifficultyOf(bits, interval, spacing, actual, d);
    MulJoin(FractionalDifficulty(bits), interval + 1, spacing);
    hide Divisor;
    ClampedQuotient(n, d);
  }

  lemma NextDifficultyOf(bits: nat, interval: nat, spacing: nat, actual: int, d: int)
    requires d == Divisor(interval, spacing, actual) != 0
    ensures NextDifficulty(bits, interval, spacing, actual)
            == Clamp(TruncDiv(FractionalDifficulty(bits) * ((interval + 1) * spacing), d))
  {
  }

  lemma MulJoin(a: int, b: int, c: int)
    ensures a * (b * c) == a * b * c
  {
  }

  lemma ClampedQuotient(n: nat, d: nat)
    requires d > 0
    ensures var q := Clamp(TruncDiv(n, d));
            (q > DIFFICULTY_MIN ==> q * d <= n) && (q < DIFFICULTY_MAX ==> n < (q + 1) * d)
  {
    var q, clamped := n / d, Clamp(TruncDiv(n, d));
    DivMul(n, d);
    assert n < (q + 1) * d;
    if clamped < DIFFICULTY_MAX {
      MulGe(q + 1, clamped + 1, d);
    }
    if clamped > DIFFICULTY_MIN {
      MulGe(clamped, q, d);
    }
  }

  lemma NextDifficultyAntitone(bits: nat, interval: nat, spacing: nat, a1: int, a2: int)
    requires a1 <= a2 && Divisor(interval, spacing, a1) > 0
    ensures Divisor(interval, spacing, a2) > 0
    ensures NextDifficulty(bits, interval, spacing, a1) >= NextDifficulty(bits, interval, spacing, a2)
  {
    var n := FractionalDifficulty(bits) * ((interval + 1) * spacing);
    DivMono(Divisor(interval, spacing, a1), Divisor(interval, spacing, a2), n);
  }

  /** The lowest difficulty comes next exactly when the divisor is negative or large enough. */
  lemma LowestWhen(bits: nat, interval: nat, spacing: nat, actual: int)
    requires Divisor(interval, spacing, actual) != 0
    ensures NextDifficulty(bits, interval, spacing, actual) == DIFFICULTY_MIN
            <==> var d := Divisor(interval, spacing, actual);
                 d < 0 || FractionalDifficulty(bits) * ((interval + 1) * spacing) < (DIFFICULTY_MIN + 1) * d
  {
    var d, n := Divisor(interval, spacing, actual), FractionalDifficulty(bits) * ((interval + 1) * spacing);
    if d < 0 {
      NegativeDivisor(n, d);
    } else if n < (DIFFICULTY_MIN + 1) * d {
      if n / d > DIFFICULTY_MIN {
        MulGe(DIFFICULTY_MIN + 1, n / d, d);
        DivMul(n, d);
      }
    } else {
      DivLower(n, d, DIFFICULTY_MIN + 1);
    }
  }

  /**
   A longer actual spacing never gives a harder target, exactly as long as the divisor is
   positive for the shorter one, or already the longer one leads to the lowest difficulty: a
   spacing negative enough to make the divisor negative yields the lowest difficulty there is.
   */
  lemma NextIsAntitone(bits: nat, interval: nat, spacing: nat, a1: int, a2: int)
    requires InRange(bits) && a1 <= a2
    requires Divisor(interval, spacing, a1) != 0 && Divisor(interval, spacing, a2) != 0
    ensures Step(bits, NextDifficulty(bits, interval, spacing, a1)) >= Step(bits, NextDifficulty(bits, interval, spacing, a2))
            <==> var d1, d2 := Divisor(interval, spacing, a1), Divisor(interval, spacing, a2);
                 d1 > 0 || d2 < 0 || FractionalDifficulty(bits) * ((interval + 1) * spacing) < (DIFFICULTY_MIN + 1) * d2
  {
    hide Step, NextDifficulty, FractionalDifficulty, InRange;
    var d1 := NextDifficulty(bits, interval, spacing, a1);
    var d2 := NextDifficulty(bits, interval, spacing, a2);
    LowestWhen(bits, interval, spacing, a2);
    if Divisor(interval, spacing, a1) > 0 {
      NextDifficultyAntitone(bits, interval, spacing, a1, a2);
      StepMonotone(bits, d2, d1);
    } else {
      LowestWhen(bits, interval, spacing, a1);
      StepMonotone(bits, d1, d2);
    }
  }

  lemma NegativeDivisor(n: nat, d: int)
    requires d < 0
    ensures Clamp(TruncDiv(n, d)) == DIFFICULTY_MIN
  {
  }

  /** With the node's own constants, a spacing of nearly minus a million seconds makes the target easier than 60 does. */
  lemma NegativeSpacingBreaksOrder()
    ensures var bits := 7 * FRACTION + FRACTION / 2;
            && InRange(bits)
            && Divisor(10080, 60, -999_999) < 0 < Divisor(10080, 60, 60)
            && Step(bits, NextDifficulty(bits, 10080, 60, -999_999)) < Step(bits, NextDifficulty(bits, 10080, 60, 60))
  {
    var bits := 7 * FRACTION + FRACTION / 2;
    OnTarget(bits, 10080, 60);
    NegativeDivisor(FractionalDifficulty(bits) * ((10080 + 1) * 60), Divisor(10080, 60, -999_999));
    StepMonotone(bits, DIFFICULTY_MIN, NextDifficulty(bits, 10080, 60, 60));
  }

  lemma OnTarget(bits: nat, interval: nat, spacing: nat)
    requires spacing > 0
    ensures Divisor(interval, spacing, spacing) == (interval + 1) * spacing > 0
    ensures NextDifficulty(bits, interval, spacing, spacing) == FractionalDifficulty(bits)
  {
    var fd := FractionalDifficulty(bits);
    var k := (interval + 1) * spacing;
    assert k >= spacing;
    assert Divisor(interval, spacing, spacing) == k;
    DivExact(fd * k, k, fd);
    DifficultyRange(bits);
  }

  /**
   On-target spacing leaves the target alone exactly when its difficulty is above the
   minimum and not past the threshold, or at the minimum of the shortest length.
   */
  lemma OnTargetIsFixedPoint(bits: nat, interval: nat, spacing: nat)
    requires InRange(bits) && spacing > 0
    ensures Divisor(interval, spacing, spacing) != 0
    ensures Step(bits, NextDifficulty(bits, interval, spacing, spacing)) == bits
            <==> var fd := FractionalDifficulty(bits);
                 DIFFICULTY_MIN < fd <= DIFFICULTY_THRESHOLD || (fd == DIFFICULTY_MIN && Length(bits) == MIN_LENGTH)
  {
    OnTarget(bits, interval, spacing);
    SetAfterGet(bits);
    FractionForRange(DIFFICULTY_THRESHOLD);
  }

  // ---------- work ----------

  function Power(base: nat, k: nat): nat {
    if k == 0 then 1 else Power(base, k - 1) * base
  }

  function LengthAboveMin(bits: nat): nat {
    if Length(bits) > MIN_LENGTH then Length(bits) - MIN_LENGTH else 0
  }

  /** The fractional part of a work value, between 1 and the transition ratio, scaled by what precedes it. */
  function FractionalWork(whole: nat, difficulty: nat): nat
    requires difficulty > 0
  {
    whole * (WORK_TRANSITION_RATIO * difficulty) / ((WORK_TRANSITION_RATIO - 1) * DIFFICULTY_MIN + difficulty)
  }

  function Work(bits: nat): nat {
    DifficultyRange(bits);
    FractionalWork(256 * Power(WORK_TRANSITION_RATIO, LengthAboveMin(bits)), FractionalDifficulty(bits))
  }

  method GetBlockWork(bits: nat) returns (work: nat)
    ensures work == Work(bits)
  {
    hide FractionalDifficulty, Power;
    DifficultyRange(bits);
    var difficulty := FractionalDifficulty(bits);
    hide FractionalWork;
    work := WholeWork(bits);
    work := AddFraction(work, difficulty);
  }

  method AddFraction(whole: nat, difficulty: nat) returns (work: nat)
    requires difficulty > 0
    ensures work == FractionalWork(whole, difficulty)
  {
    work := whole * (WORK_TRANSITION_RATIO * difficulty);
    work := work / ((WORK_TRANSITION_RATIO - 1) * DIFFICULTY_MIN + difficulty);
  }

  method WholeWork(bits: nat) returns (work: nat)
    ensures work == 256 * Power(WORK_TRANSITION_RATIO, LengthAboveMin(bits))
  {
    hide Length;
    work := 256;
    var count := MIN_LENGTH;
    while count < Length(bits)
      invariant MIN_LENGTH <= count
      invariant count <= Length(bits) || count == MIN_LENGTH
      invariant work == 256 * Power(WORK_TRANSITION_RATIO, count - MIN_LENGTH)
    {
      work := work * WORK_TRANSITION_RATIO;
      count := count + 1;
    }
  }

  lemma FractionalWorkRange(whole: nat, d: nat)
    requires DIFFICULTY_MIN <= d && whole > 0
    ensures whole <= FractionalWork(whole, d) < whole * WORK_TRANSITION_RATIO
  {
    var divisor := 31 * DIFFICULTY_MIN + d;
    var n := whole * (32 * d);
    assert n == (whole * 32) * d;
    assert n - whole * divisor == whole * (31 * (d - DIFFICULTY_MIN));
    assert whole * (31 * (d - DIFFICULTY_MIN)) >= 0;
    DivLower(n, divisor, whole);
    var q := n / divisor;
    assert (whole * 32) * divisor == n + (whole * 32) * (31 * DIFFICULTY_MIN);
    if q >= whole * 32 {
      MulGe(whole * 32, q, divisor);
    }
  }

  lemma {:induction false} PowerPositive(base: nat, k: nat)
    requires base > 0
    ensures Power(base, k) > 0
  {
    if k > 0 {
      PowerPositive(base, k - 1);
    }
  }

  /** The work of a block k lengths above the minimum lies between 256 * 32^k and 256 * 32^(k+1). */
  lemma WorkRange(bits: nat)
    ensures var k := LengthAboveMin(bits);
            256 * Power(WORK_TRANSITION_RATIO, k) <= Work(bits) < 256 * Power(WORK_TRANSITION_RATIO, k + 1)
    ensures Work(bits) > 0
  {
    var k := LengthAboveMin(bits);
    PowerPositive(WORK_TRANSITION_RATIO, k);
    DifficultyRange(bits);
    FractionalWorkRange(256 * Power(WORK_TRANSITION_RATIO, k), FractionalDifficulty(bits));
  }

  lemma FractionalWorkMonotone(whole: nat, d1: nat, d2: nat)
    requires 0 < d1 <= d2
    ensures FractionalWork(whole, d1) <= FractionalWork(whole, d2)
  {
    var c: nat := 31 * DIFFICULTY_MIN;
    var q := FractionalWork(whole, d1);
    var n := whole * 32;
    assert q * (c + d1) <= n * d1 by {
      assert whole * (32 * d1) == n * d1;
    }
    // q * c <= (n - q) * d1 <= (n - q) * d2
    assert q * c <= (n - q) * d1;
    assert q * (c + d1) == q * c + q * d1;
    if n < q {
      MulGe(n + 1, q, d1);
    }
    MulGe(d1, d2, n - q);
    assert q * (c + d2) <= n * d2 by {
      assert (n - q) * d2 == n * d2 - q * d2;
    }
    assert whole * (32 * d2) == n * d2;
    DivLower(whole * (32 * d2), c + d2, q);
  }

  /** The work is the quotient by which the last prime multiplies what the whole length stands for. */
  lemma WorkIs(bits: nat)
    ensures var whole := 256 * Power(WORK_TRANSITION_RATIO, LengthAboveMin(bits));
            var d := FractionalDifficulty(bits);
            Work(bits) * (31 * DIFFICULTY_MIN + d) <= whole * 32 * d < (Work(bits) + 1) * (31 * DIFFICULTY_MIN + d)
  {
    DifficultyRange(bits);
    var whole := 256 * Power(WORK_TRANSITION_RATIO, LengthAboveMin(bits));
    var d := FractionalDifficulty(bits);
    assert whole * (32 * d) == whole * 32 * d;
    DivMul(whole * (32 * d), 31 * DIFFICULTY_MIN + d);
  }

  /** At the start of a length the work is that of the whole length, 32 times more for each one above six. */
  lemma WorkOfLength(bits: nat)
    requires Fractional(bits) == 0
    ensures Work(bits) == 256 * Power(32, if Length(bits) > 6 then Length(bits) - 6 else 0)
  {
    var whole := 256 * Power(WORK_TRANSITION_RATIO, LengthAboveMin(bits));
    assert FractionalDifficulty(bits) == DIFFICULTY_MIN;
    assert whole * (32 * DIFFICULTY_MIN) == whole * (31 * DIFFICULTY_MIN + DIFFICULTY_MIN);
    DivExact(whole * (32 * DIFFICULTY_MIN), 31 * DIFFICULTY_MIN + DIFFICULTY_MIN, whole);
  }

  /** Within a length, a difficulty higher by enough for one more unit of work means strictly more work. */
  lemma WorkGrowsWhen(b1: nat, b2: nat)
    requires Length(b1) == Length(b2)
    requires var whole := 256 * Power(WORK_TRANSITION_RATIO, LengthAboveMin(b1));
             var d1, d2 := FractionalDifficulty(b1), FractionalDifficulty(b2);
             whole * 32 * 31 * DIFFICULTY_MIN * (d2 - d1) >= (31 * DIFFICULTY_MIN + d1) * (31 * DIFFICULTY_MIN + d2)
    ensures Work(b1) < Work(b2)
  {
    var n := 256 * Power(WORK_TRANSITION_RATIO, LengthAboveMin(b1)) * 32;
    WorkIs(b1);
    WorkIs(b2);
    DifficultyRange(b1);
    DifficultyRange(b2);
    OneMoreUnit(n, 31 * DIFFICULTY_MIN, FractionalDifficulty(b1), FractionalDifficulty(b2), Work(b1), Work(b2));
  }

  lemma OneMoreUnit(n: nat, c: nat, d1: nat, d2: nat, w1: nat, w2: nat)
    requires c + d1 > 0 && c + d2 > 0
    requires n * c * (d2 - d1) >= (c + d1) * (c + d2)
    requires w1 * (c + d1) <= n * d1 && n * d2 < (w2 + 1) * (c + d2)
    ensures w1 < w2
  {
    var e1, e2 := c + d1, c + d2;
    Widened(n, c, d1, d2);
    MulGe(w1 * e1, n * d1, e2);
    MulSwap(w1, e1, e2);
    if w2 <= w1 {
      MulGe(w2 + 1, w1 + 1, e2);
      MulGt(n * d2, (w1 + 1) * e2, e1);
      Spread(w1, e2, e1);
    }
  }

  lemma Widened(n: nat, c: nat, d1: nat, d2: nat)
    ensures n * d2 * (c + d1) - n * d1 * (c + d2) == n * c * (d2 - d1)
  {
    var x, y := n * d1, n * d2;
    assert y * (c + d1) == y * c + y * d1 && x * (c + d2) == x * c + x * d2;
    MulSwap(n, d1, d2);
    MulSwap(n, c, d1);
    MulSwap(n, c, d2);
    Spread2(n * c, d2, d1);
  }

  lemma Spread(a: nat, b: nat, k: nat)
    ensures (a + 1) * b * k == a * b * k + b * k
  {
    assert (a + 1) * b == a * b + b;
  }

  lemma Spread2(a: int, b: int, c: int)
    ensures a * (b - c) == a * b - a * c
  {
  }

  lemma {:induction false} PowerMonotone(base: nat, j: nat, k: nat)
    requires base > 0 && j <= k
    ensures Power(base, j) <= Power(base, k)
    decreases k
  {
    if j < k {
      PowerMonotone(base, j, k - 1);
      MulGe(1, base, Power(base, k - 1));
    }
  }

  /** A harder target stands for at least as much work, from the minimum length on. */
  lemma WorkIsMonotone(b1: nat, b2: nat)
    requires Length(b1) >= MIN_LENGTH && b1 <= b2
    ensures Work(b1) <= Work(b2)
  {
    DifficultyRange(b1);
    DifficultyRange(b2);
    if Length(b1) == Length(b2) {
      DivMono(FRACTION - Fractional(b2), FRACTION - Fractional(b1), DIFFICULTY_MAX);
      FractionalWorkMonotone(256 * Power(WORK_TRANSITION_RATIO, LengthAboveMin(b1)),
                             FractionalDifficulty(b1), FractionalDifficulty(b2));
    } else {
      WorkRange(b1);
      WorkRange(b2);
      PowerMonotone(WORK_TRANSITION_RATIO, LengthAboveMin(b1) + 1, LengthAboveMin(b2));
    }
  }
}
