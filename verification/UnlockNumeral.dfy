/** The fifteen symbols of an emergency unlock code: a base-30 numeral and a check symbol. */
module UnlockNumeral {
  import opened Basics

  // ----- the alphabet, shared with the device ID

  const ALPHABET: string := "23456789ABCDEFGHJKMNPQRSTVWXYZ"
  const BASE: nat := 30
  const VALUE_SYMBOLS: nat := 14
  const CODE_SYMBOLS: nat := 15

  const WORDS: nat := 0x1_0000_0000_0000_0000
  /** A `u64`. */
  type Word = x: nat | x < WORDS

  type Digit = d: nat | d < BASE

  /** The first place of `c` in the alphabet at or after `from`. */
  function PositionFrom(c: char, from: nat): (d: Option<Digit>)
    requires from <= |ALPHABET|
    ensures d.Some? ==> ALPHABET[d.value] == c
    decreases |ALPHABET| - from
  {
    if from == |ALPHABET| then None
    else if ALPHABET[from] == c then Some(from)
    else PositionFrom(c, from + 1)
  }

  function Position(c: char): Option<Digit> {
    PositionFrom(c, 0)
  }

  /** The 30 symbols as two arithmetic runs of characters with gaps: a rank function. */
  function Rank(c: char): int {
    var n := c as int;
    if n <= 57 then n - 50
    else if n <= 72 then n - 57
    else if n <= 75 then n - 58
    else if n <= 78 then n - 59
    else if n <= 84 then n - 60
    else n - 61
  }

  lemma RankOfSymbol(d: Digit)
    ensures Rank(ALPHABET[d]) == d
  {
  }

  lemma PositionFromFinds(d: Digit, from: nat)
    requires from <= d
    ensures PositionFrom(ALPHABET[d], from) == Some(d)
    decreases d - from
  {
    RankOfSymbol(d);
    RankOfSymbol(from);
    if from < d {
      PositionFromFinds(d, from + 1);
    }
  }

  /** Each symbol stands for one digit. */
  lemma SymbolsAreDistinct(d: Digit)
    ensures Position(ALPHABET[d]) == Some(d)
  {
    PositionFromFinds(d, 0);
  }

  // ----- the base-30 numeral

  /** `x` in exactly `n` digits, the most significant first (higher digits are lost). */
  function Digits(x: nat, n: nat): (ds: seq<Digit>)
    ensures |ds| == n
  {
    if n == 0 then [] else Digits(x / BASE, n - 1) + [x % BASE]
  }

  function Value(ds: seq<Digit>): nat {
    if ds == [] then 0 else Value(ds[..|ds| - 1]) * BASE + ds[|ds| - 1]
  }

  function Pow30(n: nat): (p: nat)
    ensures p > 0
  {
    if n == 0 then 1 else BASE * Pow30(n - 1)
  }

  lemma {:induction false} ValueOfDigits(x: nat, n: nat)
    requires x < Pow30(n)
    ensures Value(Digits(x, n)) == x
  {
    if n > 0 {
      ValueOfDigits(x / BASE, n - 1);
      assert Digits(x, n)[..n - 1] == Digits(x / BASE, n - 1);
    }
  }

  lemma {:induction false} DigitsOfValue(ds: seq<Digit>)
    ensures Digits(Value(ds), |ds|) == ds
  {
    if ds != [] {
      var front, last := ds[..|ds| - 1], ds[|ds| - 1];
      DigitsOfValue(front);
      assert Value(ds) / BASE == Value(front) && Value(ds) % BASE == last;
      assert front + [last] == ds;
    }
  }

  lemma WordsFit()
    ensures WORDS <= Pow30(VALUE_SYMBOLS)
  {
    assert Pow30(7) == 21870000000 by { assert Pow30(4) == 810000; }
    assert Pow30(8) == 30 * Pow30(7);
    assert Pow30(10) == 900 * Pow30(8);
    assert Pow30(12) == 900 * Pow30(10);
    assert Pow30(14) == 900 * Pow30(12);
  }

  /** The slots of an array, filled from the last one back. */
  method FillDigits(x: Word) returns (digits: array<Digit>)
    ensures fresh(digits) && digits[..] == Digits(x, VALUE_SYMBOLS)
  {
    digits := new Digit[VALUE_SYMBOLS](_ => 0);
    var n: nat, slot := x, VALUE_SYMBOLS;
    while slot > 0
      invariant 0 <= slot <= VALUE_SYMBOLS
      invariant Digits(x, VALUE_SYMBOLS) == Digits(n, slot) + digits[slot..]
    {
      slot := slot - 1;
      digits[slot] := n % BASE;
      n := n / BASE;
    }
  }

  // ----- the check symbol

  /** Luhn's addend: a doubled digit counts for the sum of its two base-30 digits. */
  function Addend(factor: nat, d: Digit): nat {
    factor * d / BASE + factor * d % BASE
  }

  /** The weighted sum, the last digit under `factor` and the rest under 1 and 2 in turn. */
  function LuhnSum(ds: seq<Digit>, factor: nat): nat
    requires factor in {1, 2}
  {
    if ds == [] then 0
    else LuhnSum(ds[..|ds| - 1], 3 - factor) + Addend(factor, ds[|ds| - 1])
  }

  function CheckSymbol(ds: seq<Digit>): Digit {
    (BASE - LuhnSum(ds, 2) % BASE) % BASE
  }

  method ComputeCheckSymbol(ds: seq<Digit>) returns (check: Digit)
    ensures check == CheckSymbol(ds)
  {
    var factor: nat, sum: nat, i := 2, 0, |ds|;
    assert ds[..|ds|] == ds;
    while i > 0
      invariant 0 <= i <= |ds| && factor in {1, 2}
      invariant LuhnSum(ds, 2) == LuhnSum(ds[..i], factor) + sum
    {
      i := i - 1;
      assert ds[..i + 1][..i] == ds[..i];
      sum := sum + (factor * ds[i] / BASE + factor * ds[i] % BASE);
      factor := 3 - factor;
    }
    check := (BASE - sum % BASE) % BASE;
  }

  predicate Checks(ds: seq<Digit>)
    requires |ds| == CODE_SYMBOLS
  {
    CheckSymbol(ds[..VALUE_SYMBOLS]) == ds[VALUE_SYMBOLS]
  }

  lemma CheckCompletes(sum: nat, d: Digit)
    ensures (BASE - sum % BASE) % BASE == d <==> (sum + d) % BASE == 0
  {
  }

  lemma ChecksMeansSumIsZero(ds: seq<Digit>)
    requires |ds| == CODE_SYMBOLS
    ensures Checks(ds) <==> LuhnSum(ds, 1) % BASE == 0
  {
    assert Addend(1, ds[VALUE_SYMBOLS]) == ds[VALUE_SYMBOLS];
    assert ds[..|ds| - 1] == ds[..VALUE_SYMBOLS];
    CheckCompletes(LuhnSum(ds[..VALUE_SYMBOLS], 2), ds[VALUE_SYMBOLS]);
  }

  function FactorAt(n: nat, factor: nat, i: nat): (f: nat)
    requires factor in {1, 2} && i < n
    ensures f in {1, 2}
  {
    if i == n - 1 then factor else FactorAt(n - 1, 3 - factor, i)
  }

  lemma FactorsAlternate(n: nat, factor: nat, i: nat)
    requires factor in {1, 2} && i + 1 < n
    ensures FactorAt(n, factor, i) == 3 - FactorAt(n, factor, i + 1)
  {
    if i + 2 < n {
      FactorsAlternate(n - 1, 3 - factor, i);
    }
  }

  lemma AddendIs(factor: nat, d: Digit)
    requires factor in {1, 2}
    ensures Addend(factor, d) == if factor == 1 then d else if d < 15 then 2 * d else 2 * d - 29
  {
  }

  lemma ZeroModGap(s: int, t: int)
    requires s % BASE == 0
    ensures t % BASE == 0 <==> (t - s) % BASE == 0
  {
  }

  /** A gap of less than two bases either way is a multiple of the base only at -30, 0 and 30. */
  lemma SmallGap(gap: int)
    requires -60 < gap < 60
    ensures gap % BASE == 0 <==> gap in {-30, 0, 30}
  {
  }

  lemma {:induction false} SumAfterChange(ds: seq<Digit>, factor: nat, i: nat, d: Digit)
    requires factor in {1, 2} && i < |ds|
    ensures var f := FactorAt(|ds|, factor, i);
            LuhnSum(ds[i := d], factor) == LuhnSum(ds, factor) - Addend(f, ds[i]) + Addend(f, d)
  {
    var n := |ds| - 1;
    if i == n {
      assert ds[i := d][..n] == ds[..n];
    } else {
      SumAfterChange(ds[..n], 3 - factor, i, d);
      assert ds[i := d][..n] == ds[..n][i := d];
    }
  }

  /** One wrong symbol never checks. */
  lemma ChangeIsCaught(ds: seq<Digit>, i: nat, d: Digit)
    requires |ds| == CODE_SYMBOLS && Checks(ds)
    requires i < CODE_SYMBOLS && d != ds[i]
    ensures !Checks(ds[i := d])
  {
    ChecksMeansSumIsZero(ds);
    ChecksMeansSumIsZero(ds[i := d]);
    SumAfterChange(ds, 1, i, d);
    var f := FactorAt(CODE_SYMBOLS, 1, i);
    AddendIs(f, ds[i]);
    AddendIs(f, d);
    ZeroModGap(LuhnSum(ds, 1), LuhnSum(ds[i := d], 1));
    SmallGap(Addend(f, d) - Addend(f, ds[i]));
  }

  function Swapped<T>(s: seq<T>, i: nat): (r: seq<T>)
    requires i + 1 < |s|
    ensures |r| == |s|
  {
    s[i := s[i + 1]][i + 1 := s[i]]
  }

  /** The first and the last symbol of the alphabet, in either order. */
  predicate FirstAndLast(a: Digit, b: Digit) {
    (a == 0 && b == BASE - 1) || (a == BASE - 1 && b == 0)
  }

  lemma SwapGap(f: nat, a: Digit, b: Digit)
    requires f in {1, 2} && a != b
    ensures (Addend(f, b) - Addend(f, a) + Addend(3 - f, a) - Addend(3 - f, b)) % BASE == 0 <==> FirstAndLast(a, b)
  {
    AddendIs(f, a);
    AddendIs(f, b);
    AddendIs(3 - f, a);
    AddendIs(3 - f, b);
    SmallGap(Addend(f, b) - Addend(f, a) + Addend(3 - f, a) - Addend(3 - f, b));
  }

  /** Two different neighbours, swapped, check exactly when they are the digits 0 and 29. */
  lemma SwapIsCaughtUnless(ds: seq<Digit>, i: nat)
    requires |ds| == CODE_SYMBOLS && Checks(ds)
    requires i + 1 < CODE_SYMBOLS && ds[i] != ds[i + 1]
    ensures Checks(Swapped(ds, i)) <==> FirstAndLast(ds[i], ds[i + 1])
  {
    var a, b := ds[i], ds[i + 1];
    ChecksMeansSumIsZero(ds);
    ChecksMeansSumIsZero(Swapped(ds, i));
    SumAfterChange(ds, 1, i, b);
    SumAfterChange(ds[i := b], 1, i + 1, a);
    FactorsAlternate(CODE_SYMBOLS, 1, i);
    SwapGap(FactorAt(CODE_SYMBOLS, 1, i), a, b);
    ZeroModGap(LuhnSum(ds, 1), LuhnSum(Swapped(ds, i), 1));
  }
}
