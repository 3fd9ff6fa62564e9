/** Fixed-point conversion: MariaDB decimals in base-10^9 groups become the scaled integers of
    DuckDB's DECIMAL, in 16, 32, 64 or 128 bits. */
module DecimalPacking {

  const BASE: nat := 1_000_000_000

  function Pow10(n: nat): (p: nat)
    ensures p >= 1
  {
    if n == 0 then 1 else 10 * Pow10(n - 1)
  }

  /** ROUND_UP: how many groups hold `digits` digits. */
  function RoundUp(digits: nat): (g: nat)
    ensures g == digits / 9 + if digits % 9 == 0 then 0 else 1
    ensures 9 * g - 9 < digits <= 9 * g || (digits == 0 && g == 0)
  {
    (digits + 8) / 9
  }

  /** Digits before and after the point, the sign, and the digit groups: the integer groups, the
      whole fraction groups, then a fraction group filled from the left. */
  datatype Decimal = Decimal(intg: nat, frac: nat, negative: bool, buf: seq<nat>) {
    function IntGroups(): nat { RoundUp(intg) }
    function FracGroups(): nat { RoundUp(frac) }

    ghost predicate Valid() {
      && |buf| == IntGroups() + FracGroups()
      && (forall i :: 0 <= i < |buf| ==> buf[i] < BASE)
      && (frac % 9 != 0 ==> buf[|buf| - 1] % Pow10(9 - frac % 9) == 0)
    }

    /** The integer part. */
    function IntPart(): nat
      requires IntGroups() <= |buf|
    {
      Fold(buf[..IntGroups()])
    }
  }

  /** A list of groups read as one number. */
  function Fold(groups: seq<nat>): nat {
    if groups == [] then 0 else Fold(groups[..|groups| - 1]) * BASE + groups[|groups| - 1]
  }

  function Signed(d: Decimal, m: nat): int {
    if d.negative then 0 - m else m
  }

  /** `res` is the decimal times 10^dec, exactly: the groups together are the value times
      10^(9 * FracGroups). */
  predicate IsScaled(res: int, d: Decimal, dec: nat) {
    res * Pow10(9 * d.FracGroups()) == Signed(d, Fold(d.buf)) * Pow10(dec)
  }

  /** The integer type picked for a precision, and what it can hold. */
  function Bits(precision: nat): nat {
    if precision <= 4 then 16 else if precision <= 9 then 32 else if precision <= 18 then 64 else 128
  }

  function Limit(bits: nat): nat {
    if bits == 16 then 0x8000
    else if bits == 32 then 0x8000_0000
    else if bits == 64 then 0x8000_0000_0000_0000
    else 0x8000_0000_0000_0000_0000_0000_0000_0000
  }

  predicate Fits(x: int, bits: nat) {
    0 - Limit(bits) <= x < Limit(bits)
  }

  /** A value stored in the chosen type: it must fit. */
  function Stored(x: int, bits: nat): (r: int)
    requires Fits(x, bits)
    ensures r == x
  {
    x
  }

  // ----- powers and bounds -----

  lemma {:induction false} PowAdd(a: nat, b: nat)
    ensures Pow10(a + b) == Pow10(a) * Pow10(b)
  {
    if a > 0 {
      PowAdd(a - 1, b);
      MulTen(Pow10(a - 1), Pow10(b));
    }
  }

  lemma MulTen(x: nat, y: nat)
    ensures 10 * (x * y) == (10 * x) * y
  {
  }

  lemma {:induction false} PowMonotone(a: nat, b: nat)
    requires a <= b
    ensures Pow10(a) <= Pow10(b)
  {
    if a < b { PowMonotone(a, b - 1); }
  }

  lemma PowNine()
    ensures Pow10(9) == BASE
  {
  }

  lemma MulMono(a: nat, b: nat, c: nat)
    requires a <= b
    ensures a * c <= b * c
  {
  }

  /** Appending `r` digits to a number of `k` digits gives one of `k + r`. */
  lemma AppendBound(m: nat, t: nat, k: nat, r: nat)
    requires m < Pow10(k) && t < Pow10(r)
    ensures m <= m * Pow10(r) <= m * Pow10(r) + t < Pow10(k + r)
  {
    PowAdd(k, r);
    MulMono(m + 1, Pow10(k), Pow10(r));
    MulMono(1, Pow10(r), m);
    assert (m + 1) * Pow10(r) == m * Pow10(r) + Pow10(r);
  }

  lemma PowersFit(n: nat, precision: nat)
    requires n <= precision <= 38
    ensures Pow10(n) <= Limit(Bits(precision))
  {
    var top := if precision <= 4 then 4 else if precision <= 9 then 9 else if precision <= 18 then 18 else 38;
    PowMonotone(n, top);
    TopPowers();
  }

  lemma TopPowers()
    ensures Pow10(4) == 10_000 && Pow10(9) == BASE && Pow10(18) == BASE * BASE
    ensures Pow10(38) == 100 * BASE * BASE * BASE * BASE
  {
    PowAdd(9, 9);
    PowAdd(18, 18);
    PowAdd(2, 36);
  }

  lemma {:induction false} FoldPrefix(groups: seq<nat>, j: nat)
    requires j <= |groups|
    ensures Fold(groups[..j]) <= Fold(groups)
    decreases |groups| - j
  {
    if j < |groups| {
      FoldPrefix(groups, j + 1);
      assert groups[..j + 1][..j] == groups[..j];
    } else {
      assert groups[..j] == groups;
    }
  }

  lemma FoldStep(groups: seq<nat>, i: nat)
    requires i < |groups|
    ensures Fold(groups[..i + 1]) == Fold(groups[..i]) * BASE + groups[i]
  {
    assert groups[..i + 1][..i] == groups[..i];
  }

  lemma SignedFits(d: Decimal, m: nat, n: nat, precision: nat)
    requires m < Pow10(n) && n <= precision <= 38
    ensures Fits(Signed(d, m), Bits(precision))
  {
    PowersFit(n, precision);
  }

  lemma SignedTimes(d: Decimal, m: nat, c: nat)
    ensures Signed(d, m) * c == Signed(d, m * c)
  {
  }

  /** update_res after a multiplication: the digits so far, shifted, and the new ones, in the
      integer type of the precision. */
  method Shifted(res: int, d: Decimal, factor: nat, digit: nat, precision: nat, ghost m: nat, ghost n: nat)
    returns (r: int)
    requires res == Signed(d, m) && m * factor + digit < Pow10(n) && n <= precision <= 38
    ensures r == Signed(d, m * factor + digit)
  {
    SignedTimes(d, m, factor);
    SignedFits(d, m * factor, n, precision);
    SignedFits(d, m * factor + digit, n, precision);
    hide Fits, Bits;
    r := Stored(res * factor, Bits(precision));
    r := Stored(if d.negative then r - digit else r + digit, Bits(precision));
  }

  function Quot(g: nat, p: nat): (q: nat)
    requires p >= 1
    ensures q * p <= g < q * p + p
  {
    g / p
  }

  /** The first `r` digits of a group. */
  function Top(g: nat, r: nat): nat
    requires r <= 9
  {
    Quot(g, Pow10(9 - r))
  }

  function Appended(whole: nat, r: nat, g: nat): nat
    requires r <= 9
  {
    whole * Pow10(r) + Top(g, r)
  }

  /** The digits of the whole number, less the unused places of the last group. */
  function Digits(d: Decimal): nat
    requires |d.buf| == d.IntGroups() + d.FracGroups()
  {
    var whole := Fold(d.buf[..d.IntGroups() + d.frac / 9]);
    if d.frac % 9 == 0 then whole else Appended(whole, d.frac % 9, d.buf[|d.buf| - 1])
  }

  lemma DivExact(g: nat, p: nat)
    requires p >= 1 && g % p == 0
    ensures Quot(g, p) * p == g
  {
  }

  lemma DigitsAreExact(d: Decimal)
    requires d.Valid()
    ensures Digits(d) * Pow10(9 * d.FracGroups() - d.frac) == Fold(d.buf)
  {
    var r, n := d.frac % 9, |d.buf|;
    hide Pow10, Fold;
    if r == 0 {
      assert d.buf[..n] == d.buf && 9 * d.FracGroups() == d.frac;
    } else {
      var g, p, w := d.buf[n - 1], Pow10(9 - r), Fold(d.buf[..n - 1]);
      assert 9 * d.FracGroups() - d.frac == 9 - r;
      FoldStep(d.buf, n - 1);
      assert d.buf[..n] == d.buf;
      PowAdd(r, 9 - r);
      PowNine();
      DivExact(g, p);
      Distribute(w, Pow10(r), Quot(g, p), p);
    }
  }

  lemma Distribute(w: nat, a: nat, t: nat, p: nat)
    ensures (w * a + t) * p == w * (a * p) + t * p
  {
    assert (w * a) * p == w * (a * p);
  }

  lemma ScalingIsExact(d: Decimal, dec: nat)
    requires d.Valid() && d.frac <= dec
    ensures IsScaled(Signed(d, Digits(d) * Pow10(dec - d.frac)), d, dec)
  {
    var e, f, g := dec - d.frac, 9 * d.FracGroups() - d.frac, 9 * d.FracGroups();
    DigitsAreExact(d);
    hide Digits, Pow10, Fold;
    var m := Digits(d);
    PowAdd(d.frac, f);
    PowAdd(d.frac, e);
    SignedTimes(d, m * Pow10(e), Pow10(g));
    SignedTimes(d, Fold(d.buf), Pow10(dec));
    calc {
      m * Pow10(e) * Pow10(g);
      m * Pow10(e) * (Pow10(d.frac) * Pow10(f));
      { Regroup(m, Pow10(e), Pow10(d.frac), Pow10(f)); }
      (m * Pow10(f)) * (Pow10(d.frac) * Pow10(e));
      Fold(d.buf) * Pow10(dec);
    }
  }

  lemma Regroup(m: nat, a: nat, b: nat, c: nat)
    ensures m * a * (b * c) == (m * c) * (b * a)
  {
    assert m * a * (b * c) == m * (a * (b * c));
    assert a * (b * c) == c * (b * a);
    assert m * (c * (b * a)) == (m * c) * (b * a);
  }

  lemma DigitsAre(d: Decimal, m: nat, i: nat)
    requires d.Valid() && i == d.IntGroups() + d.frac / 9
    requires m == if d.frac % 9 == 0 then Fold(d.buf[..i]) else Appended(Fold(d.buf[..i]), d.frac % 9, d.buf[i])
    ensures m == Digits(d)
  {
    hide Appended, Fold;
  }

  /** The first loop of get_duckdb_decimal: the integer groups. */
  method TakeIntegers(d: Decimal, precision: nat, ghost k: nat) returns (res: int, i: nat)
    requires d.Valid() && d.IntPart() < Pow10(k) && k <= precision <= 38
    ensures i == d.IntGroups() && res == Signed(d, Fold(d.buf[..i]))
  {
    res, i := 0, 0;
    var intg := d.intg as int;
    ghost var ints := d.buf[..d.IntGroups()];
    while intg > 0
      invariant i <= d.IntGroups() && intg == d.intg - 9 * i
      invariant res == Signed(d, Fold(d.buf[..i]))
    {
      hide Pow10, Fold, Signed;
      FoldStep(d.buf, i);
      FoldPrefix(ints, i + 1);
      assert ints[..i + 1] == d.buf[..i + 1];
      res := Shifted(res, d, BASE, d.buf[i], precision, Fold(d.buf[..i]), k);
      i, intg := i + 1, intg - 9;
    }
  }

  /** The second loop: the whole fraction groups. */
  method TakeFractions(d: Decimal, whole: int, precision: nat, ghost k: nat) returns (res: int, i: nat, frac: nat)
    requires d.Valid() && d.IntPart() < Pow10(k) && k + d.frac <= precision <= 38
    requires whole == Signed(d, d.IntPart())
    ensures frac == d.frac % 9 && i == d.IntGroups() + d.frac / 9
    ensures res == Signed(d, Fold(d.buf[..i])) && Fold(d.buf[..i]) < Pow10(k + d.frac - frac)
  {
    hide Pow10, Fold, Signed;
    PowNine();
    res, i, frac := whole, d.IntGroups(), d.frac;
    while frac >= 9
      invariant d.IntGroups() <= i <= |d.buf| && frac == d.frac - 9 * (i - d.IntGroups())
      invariant res == Signed(d, Fold(d.buf[..i])) && Fold(d.buf[..i]) < Pow10(k + d.frac - frac)
    {
      FoldStep(d.buf, i);
      AppendBound(Fold(d.buf[..i]), d.buf[i], k + d.frac - frac, 9);
      res := Shifted(res, d, BASE, d.buf[i], precision, Fold(d.buf[..i]), k + d.frac - frac + 9);
      i, frac := i + 1, frac - 9;
    }
  }

  /** get_duckdb_decimal: exactly the value times 10^dec, and, with an integer part of at most `k`
      digits, no intermediate result leaves the type chosen for the precision. */
  method GetDuckdbDecimal(d: Decimal, dec: nat, precision: nat, ghost k: nat) returns (res: int)
    requires d.Valid() && d.frac <= dec <= d.frac + 9
    requires d.IntPart() < Pow10(k) && k + dec <= precision <= 38
    ensures IsScaled(res, d, dec)
  {
    hide Pow10, Fold, Signed, Top, Digits, IsScaled;
    ScalingIsExact(d, dec);
    var fill := dec - d.frac;
    var i, frac;
    res, i := TakeIntegers(d, precision, k);
    res, i, frac := TakeFractions(d, res, precision, k);
    ghost var m := Fold(d.buf[..i]);
    if frac > 0 {
      var t := Top(d.buf[i], frac);
      TopDigits(d.buf[i], frac);
      AppendBound(m, t, k + d.frac - frac, frac);
      res := Shifted(res, d, Pow10(frac), t, precision, m, k + d.frac);
      m := m * Pow10(frac) + t;
    }
    DigitsAre(d, m, i);
    FillZero(m);
    if fill > 0 {
      AppendBound(m, 0, k + d.frac, fill);
      res := Shifted(res, d, Pow10(fill), 0, precision, m, k + dec);
    }
  }

  lemma FillZero(m: nat)
    ensures m * Pow10(0) == m
  {
  }

  lemma TopDigits(g: nat, r: nat)
    requires g < BASE && 1 <= r <= 9
    ensures Top(g, r) < Pow10(r)
  {
    PowNine();
    PowAdd(r, 9 - r);
    hide Pow10, Quot;
    if Top(g, r) >= Pow10(r) { MulMono(Pow10(r), Top(g, r), Pow10(9 - r)); }
  }

  // ----- how many integer digits a value really has -----

  function DigitCount(g: nat): nat {
    if g == 0 then 0 else 1 + DigitCount(g / 10)
  }

  lemma {:induction false} DigitCountBounds(g: nat)
    requires g > 0
    ensures DigitCount(g) >= 1 && Pow10(DigitCount(g) - 1) <= g < Pow10(DigitCount(g))
  {
    if g >= 10 { DigitCountBounds(g / 10); }
  }

  /** A number whose first group has between `a` and `b` digits. */
  lemma {:induction false} FoldBounds(buf: seq<nat>, i: nat, j: nat, a: nat, b: nat)
    requires i < j <= |buf| && Fold(buf[..i]) == 0 && buf[i] < Pow10(b)
    requires forall x :: 0 <= x < |buf| ==> buf[x] < BASE
    ensures Fold(buf[..j]) < Pow10(b + 9 * (j - i - 1))
    ensures buf[i] >= Pow10(a) ==> Fold(buf[..j]) >= Pow10(a + 9 * (j - i - 1))
    decreases j
  {
    hide Pow10, Fold;
    FoldStep(buf, j - 1);
    if j > i + 1 {
      PowNine();
      FoldBounds(buf, i, j - 1, a, b);
      AppendBound(Fold(buf[..j - 1]), buf[j - 1], b + 9 * (j - i - 2), 9);
      PowAdd(a + 9 * (j - i - 2), 9);
      if buf[i] >= Pow10(a) { MulMono(Pow10(a + 9 * (j - i - 2)), Fold(buf[..j - 1]), BASE); }
    }
  }

  /** The leading group holds the digits that do not fill a group. */
  ghost predicate LeadingFits(d: Decimal)
    requires d.Valid()
  {
    d.intg > 0 ==> d.buf[0] < Pow10(d.intg - 9 * (d.IntGroups() - 1))
  }

  /** A decimal declared with `intg` integer digits has at most that many. */
  lemma IntPartBound(d: Decimal)
    requires d.Valid() && LeadingFits(d)
    ensures d.IntPart() < Pow10(d.intg)
  {
    if d.intg > 0 {
      assert Fold(d.buf[..0]) == 0;
      FoldBounds(d.buf, 0, d.IntGroups(), 0, d.intg - 9 * (d.IntGroups() - 1));
    }
  }

  /** my_decimal_actual_intg: the number of significant integer digits. */
  method ActualIntg(d: Decimal) returns (n: nat)
    requires d.Valid()
    ensures d.IntPart() < Pow10(n) && (n > 0 ==> d.IntPart() >= Pow10(n - 1))
  {
    if d.intg == 0 { return 0; }
    var groups, i := RoundUp(d.intg), 0;
    while i < groups && d.buf[i] == 0
      invariant 0 <= i <= groups && Fold(d.buf[..i]) == 0
    {
      FoldStep(d.buf, i);
      i := i + 1;
    }
    if i >= groups { return 0; }
    var digits, temp := 0, d.buf[i];
    while temp > 0
      invariant digits + DigitCount(temp) == DigitCount(d.buf[i])
    {
      temp, digits := temp / 10, digits + 1;
    }
    DigitCountBounds(d.buf[i]);
    FoldBounds(d.buf, i, groups, digits - 1, digits);
    n := digits + (groups - i - 1) * 9;
  }

  datatype Outcome = Error | Value(scaled: int, width: nat, scale: nat)

  /** The DECIMAL case of append_mysql_field when large decimals are not sent as doubles: an
      out-of-range value is an error, any other is stored exactly. */
  method AppendDecimal(d: Decimal, precision: nat, dec: nat) returns (r: Outcome)
    requires d.Valid() && LeadingFits(d)
    requires d.frac <= dec ==> dec <= d.frac + 9
    requires d.frac <= dec && precision <= 38 && d.intg + d.frac <= precision ==> d.intg + dec <= precision
    requires precision > 38 ==> d.frac <= dec
    ensures r.Value? ==> IsScaled(r.scaled, d, dec) && r.scale == dec
    ensures r.Value? ==> r.width == if precision <= 38 then precision else 38
    ensures precision <= 38 ==> (r.Error? <==> d.intg + d.frac > precision || d.frac > dec)
    ensures precision > 38 ==> (r.Error? <==> dec > 38 || d.IntPart() >= Pow10(38 - dec))
  {
    if precision <= 38 {
      if d.intg + d.frac > precision || d.frac > dec { return Error; }
      IntPartBound(d);
      var x := GetDuckdbDecimal(d, dec, precision, d.intg);
      return Value(x, precision, dec);
    }
    var n := ActualIntg(d);
    DigitsOverLimit(d.IntPart(), n, dec);
    if n + dec > 38 { return Error; }
    var x := GetDuckdbDecimal(d, dec, 38, n);
    return Value(x, 38, dec);
  }

  lemma DigitsOverLimit(m: nat, n: nat, dec: nat)
    requires m < Pow10(n) && (n > 0 ==> m >= Pow10(n - 1))
    ensures n + dec > 38 <==> dec > 38 || m >= Pow10(38 - dec)
  {
    if dec <= 38 {
      if n + dec > 38 { PowMonotone(38 - dec, n - 1); }
      else { PowMonotone(n, 38 - dec); }
    }
  }

  /** The type picked for a precision is the narrowest that holds every number of that many digits. */
  lemma BitsIsNarrowest(precision: nat)
    requires precision <= 38
    ensures Bits(precision) in {16, 32, 64, 128} && Pow10(precision) <= Limit(Bits(precision))
    ensures Bits(precision) > 16 ==> Pow10(precision) > Limit(Bits(precision) / 2)
  {
    PowersFit(precision, precision);
    NextPowers();
    hide Pow10;
    if precision > 18 {
      PowMonotone(19, precision);
    } else if precision > 9 {
      PowMonotone(10, precision);
    } else if precision > 4 {
      PowMonotone(5, precision);
    }
  }

  /** The signed integer types. */
  lemma TypesHold(x: int)
    ensures Fits(x, 16) <==> -32768 <= x <= 32767
    ensures Fits(x, 32) <==> -2147483648 <= x <= 2147483647
    ensures Fits(x, 64) <==> -9223372036854775808 <= x <= 9223372036854775807
    ensures Fits(x, 128) <==>
              -170141183460469231731687303715884105728 <= x <= 170141183460469231731687303715884105727
  {
  }

  lemma NextPowers()
    ensures Pow10(5) == 10 * 10_000 && Pow10(10) == 10 * BASE && Pow10(19) == 10 * BASE * BASE
  {
    TopPowers();
  }

  function PowBase(n: nat): (p: nat)
    ensures p >= 1
  {
    if n == 0 then 1 else BASE * PowBase(n - 1)
  }

  /** The groups are the base-10^9 digits of the number, the first the most significant. */
  lemma {:induction false} FoldWeights(first: nat, rest: seq<nat>)
    ensures Fold([first] + rest) == first * PowBase(|rest|) + Fold(rest)
  {
    var all := [first] + rest;
    if rest == [] {
      assert all == [first] && [first][..0] == [];
    } else {
      var init := rest[..|rest| - 1];
      FoldWeights(first, init);
      assert all[..|all| - 1] == [first] + init;
      NextGroup(first, PowBase(|init|), Fold(init));
    }
  }

  lemma NextGroup(x: nat, p: nat, y: nat)
    ensures (x * p + y) * BASE == x * (BASE * p) + y * BASE
  {
  }

  /** A scaled number has the sign of its decimal, and the decimal of the other sign gives its
      negation. */
  lemma SignIsKept(res: int, d: Decimal, dec: nat)
    requires IsScaled(res, d, dec)
    ensures Fold(d.buf) > 0 ==> res != 0 && (res < 0 <==> d.negative)
    ensures IsScaled(0 - res, d.(negative := !d.negative), dec)
  {
    var p, q, m := Pow10(9 * d.FracGroups()), Pow10(dec), Fold(d.buf);
    assert res * p == Signed(d, m) * q;
    Negate(res, p);
    Negate(Signed(d, m), q);
    if m > 0 { SameSign(res, p, Signed(d, m), q); }
  }

  lemma Negate(x: int, p: nat)
    ensures (0 - x) * p == 0 - x * p
  {
  }

  lemma SameSign(x: int, p: nat, y: int, q: nat)
    requires x * p == y * q && p >= 1 && q >= 1
    ensures (x > 0 <==> y > 0) && (x < 0 <==> y < 0)
  {
    ProductSign(x, p);
    ProductSign(y, q);
  }

  lemma ProductSign(x: int, p: nat)
    requires p >= 1
    ensures (x * p > 0 <==> x > 0) && (x * p < 0 <==> x < 0)
  {
  }

  /** 12.5 in a column of scale 3 is 12500; its groups are 12 and 500000000. */
  lemma TwelveAndAHalf(res: int)
    ensures IsScaled(res, Decimal(2, 1, false, [12, 500_000_000]), 3) <==> res == 12500
  {
    var d := Decimal(2, 1, false, [12, 500_000_000]);
    assert d.buf[..1] == [12] && [12][..0] == [];
    assert Fold(d.buf) == 12_500_000_000;
    PowNine();
    assert Pow10(3) == 1000;
  }
}
