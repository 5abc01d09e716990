/** compute_float(q, w): normalising, rounding and packing around the product with a table entry. */
module FastConversion {
  import opened Powers
  import opened Digits
  import opened MachineWords
  import opened Ieee754
  import opened Decimals
  import opened ProductApproximation
  import opened Packing
  import opened Conversion

  const UNDECIDED := AdjustedMantissa(0, -1)

  function SmallestPowerOfTen(fmt: BinaryFormat): int {
    if fmt.explicitBits == 52 then -342 else -65
  }

  function LargestPowerOfTen(fmt: BinaryFormat): int {
    if fmt.explicitBits == 52 then 308 else 38
  }

  /** The exponents for which a product may lie in the middle between two numbers. */
  predicate MayTie(fmt: BinaryFormat, q: int) {
    if fmt.explicitBits == 52 then -4 <= q <= 23 else -17 <= q <= 10
  }

  /** Outside these exponents a product whose low word is all ones is not decided. */
  predicate InsideSafe(q: int) {
    -27 <= q <= 55
  }

  /** The binary exponent of 5^q, as the source approximates it. */
  function Power(q: int): int {
    ((152170 + 65536) * q) / 0x10000 + 63
  }

  /** Rounds the last bit up and drops it. */
  function HalfUp(m: int): int {
    (m + m % 2) / 2
  }

  /** The branch below the normal numbers; `shift` bits lie below the least exponent. */
  function Subnormal(fmt: BinaryFormat, m: int, shift: nat): AdjustedMantissa {
    var r := HalfUp(Shr(m, shift));
    AdjustedMantissa(r, if r < Pow(2, fmt.explicitBits) then 0 else 1)
  }

  /** The bit that the format does not store is cleared. */
  function ClearHidden(fmt: BinaryFormat, m: int): int {
    PowPos(2, fmt.explicitBits);
    if (m / Pow(2, fmt.explicitBits)) % 2 == 1 then m - Pow(2, fmt.explicitBits) else m
  }

  /** The branch of the normal numbers and of infinity. */
  function Normal(fmt: BinaryFormat, m: int, power2: int): AdjustedMantissa {
    var r := HalfUp(m);
    var carry := r >= 2 * Pow(2, fmt.explicitBits);
    var power := if carry then power2 + 1 else power2;
    if power >= fmt.infinitePower then Infinity(fmt)
    else AdjustedMantissa(ClearHidden(fmt, if carry then Pow(2, fmt.explicitBits) else r), power)
  }

  /** The leading bit of the product, and how many of its bits are dropped for the fraction and three bits more. */
  function Upperbit(high: U64): int {
    Shr(high, 63)
  }

  function Dropped(fmt: BinaryFormat, high: U64): (k: nat)
    requires IsFormat(fmt)
  {
    if Upperbit(high) >= 1 then 64 - fmt.explicitBits - 2 else 64 - fmt.explicitBits - 3
  }

  /** The product lies in the middle between two numbers, of which the lower one is even. */
  predicate TiesDown(fmt: BinaryFormat, q: int, product: Value128, m: int)
    requires IsFormat(fmt)
  {
    product.low <= 1 && MayTie(fmt, q) && m % 4 == 1 && m * Pow(2, Dropped(fmt, product.high)) == product.high
  }

  /** What is made of the product of the normalised word. */
  function Finish(fmt: BinaryFormat, q: int, lz: nat, product: Value128): AdjustedMantissa
    requires IsFormat(fmt)
  {
    if product.low == U64_MAX && !InsideSafe(q) then UNDECIDED
    else
      var m := Shr(product.high, Dropped(fmt, product.high));
      var power2 := Power(q) + Upperbit(product.high) - lz - fmt.minimumExponent;
      if power2 > 0 then Normal(fmt, if TiesDown(fmt, q, product, m) then m - 1 else m, power2)
      else if -power2 + 1 >= 64 then ZERO
      else Subnormal(fmt, m, -power2 + 1)
  }

  function LeadingZeroes(w: U64): (lz: nat)
    requires w > 0
    ensures lz < 64 && w * Pow(2, lz) < TWO_TO_64 <= 2 * (w * Pow(2, lz))
    decreases TWO_TO_64 - w
  {
    if w >= 0x8000_0000_0000_0000 then
      assert Pow(2, 0) == 1;
      0
    else
      var k := LeadingZeroes(2 * w);
      ShiftedOnce(w, k);
      k + 1
  }

  lemma ShiftedOnce(w: U64, k: nat)
    requires 0 < 2 * w < TWO_TO_64 && k < 64 && (2 * w) * Pow(2, k) < TWO_TO_64 <= 2 * ((2 * w) * Pow(2, k))
    ensures k + 1 < 64 && w * Pow(2, k + 1) == (2 * w) * Pow(2, k)
  {
    PowStep(2, k);
    TwoTo64();
    hide Pow;
    assert w * (2 * Pow(2, k)) == (2 * w) * Pow(2, k);
    if k + 1 == 64 {
      MulMono(Pow(2, 63 + 1), 1, w);
    }
  }

  /** Joined by a bitwise or, the two parts give the fields of an encoding: the fraction without the bit that
      is one too many, and the exponent. */
  ghost predicate Packs(fmt: BinaryFormat, am: AdjustedMantissa) {
    && am.mantissa >= 0 && am.power2 >= 0
    && Fields(fmt, Packed(fmt, am)) == AdjustedMantissa(Fraction(fmt, am.mantissa), am.power2)
    && IsEncoding(fmt, Fields(fmt, Packed(fmt, am)))
  }

  function Fraction(fmt: BinaryFormat, m: int): int {
    PowPos(2, fmt.explicitBits);
    m % Pow(2, fmt.explicitBits)
  }

  lemma ZeroPacks(fmt: BinaryFormat)
    requires IsFormat(fmt)
    ensures Packs(fmt, ZERO) && Packs(fmt, Infinity(fmt))
  {
    PowPos(2, fmt.explicitBits);
    hide Pow;
    FieldsPack(fmt, ZERO);
    FieldsPack(fmt, Infinity(fmt));
  }

  lemma FieldsPack(fmt: BinaryFormat, am: AdjustedMantissa)
    requires IsFormat(fmt) && IsEncoding(fmt, am) && 0 <= am.mantissa < Pow(2, fmt.explicitBits)
    ensures Packs(fmt, am)
  {
    hide Pow;
    PackedIs(fmt, am);
    SmallRemainder(am.mantissa, Pow(2, fmt.explicitBits));
  }

  lemma SmallRemainder(m: int, p: int)
    requires 0 <= m < p
    ensures m % p == m
  {
  }

  lemma HalfUpBound(m: int, p: int)
    requires 0 <= m < 4 * p
    ensures 0 <= HalfUp(m) <= 2 * p
  {
  }

  /** The product has at most two bits more than the fraction. */
  lemma ShiftBound(fmt: BinaryFormat, high: U64)
    requires IsFormat(fmt)
    ensures 0 <= Upperbit(high) <= 1 && Dropped(fmt, high) == Upperbit(high) + 64 - fmt.explicitBits - 3
    ensures 0 <= Shr(high, Dropped(fmt, high)) < 4 * Pow(2, fmt.explicitBits)
  {
    hide Pow;
    var k := fmt.explicitBits;
    TwoTo64();
    PowPos(2, 63);
    PowStep(2, 63);
    BelowTwice(high, Pow(2, 63));
    PowStep(2, k);
    PowStep(2, k + 1);
    PowAdd(2, k + 2, Dropped(fmt, high));
    PowPos(2, Dropped(fmt, high));
    QuotientZero(high, Pow(2, 63));
    QuotientLess(high, Pow(2, k + 2), Pow(2, Dropped(fmt, high)));
  }

  lemma BelowTwice(x: int, p: int)
    requires 0 <= x < 2 * p
    ensures 0 <= x / p <= 1
  {
  }

  lemma QuotientZero(x: int, p: int)
    requires p > 0 && x >= 0
    ensures x / p == 0 <==> x < p
  {
  }

  lemma QuotientLess(x: int, a: int, b: int)
    requires b > 0 && x < a * b
    ensures x / b < a
  {
    if x / b >= a {
      MulMono(b, a, x / b);
    }
  }

  lemma CarryPacks(fmt: BinaryFormat, am: AdjustedMantissa)
    requires IsFormat(fmt) && am.mantissa == Pow(2, fmt.explicitBits) && am.power2 == 1
    ensures Packs(fmt, am)
  {
    PowPos(2, fmt.explicitBits);
    hide Pow;
    PackedCarry(fmt, am);
    assert Fraction(fmt, am.mantissa) == 0;
  }

  /** Half of what is left of the product in the subnormal branch. */
  lemma SubnormalRange(fmt: BinaryFormat, m: int, shift: nat)
    requires IsFormat(fmt) && 0 <= m < 4 * Pow(2, fmt.explicitBits) && shift >= 1
    ensures 0 <= HalfUp(Shr(m, shift)) <= Pow(2, fmt.explicitBits)
  {
    PowPos(2, fmt.explicitBits);
    PowMono(2, 1, shift);
    assert Pow(2, 1) == 2;
    hide Pow, HalfUp;
    QuarterArith(m, Pow(2, fmt.explicitBits), Pow(2, shift));
    HalfBound(Shr(m, shift), Pow(2, fmt.explicitBits));
  }

  lemma QuarterArith(m: int, p: int, s: int)
    requires 0 <= m < 4 * p && s >= 2
    ensures 0 <= m / s < 2 * p
  {
    MulMono(2 * p, 2, s);
    QuotientLess(m, 2 * p, s);
  }

  lemma HalfBound(x: int, p: int)
    requires 0 <= x < 2 * p
    ensures 0 <= HalfUp(x) <= p
  {
  }

  lemma SubnormalPacks(fmt: BinaryFormat, m: int, shift: nat)
    requires IsFormat(fmt) && 0 <= m < 4 * Pow(2, fmt.explicitBits) && shift >= 1
    ensures Packs(fmt, Subnormal(fmt, m, shift))
  {
    SubnormalRange(fmt, m, shift);
    hide Pow, Packs, HalfUp, Shr;
    var am := Subnormal(fmt, m, shift);
    if am.power2 == 0 {
      FieldsPack(fmt, am);
    } else {
      CarryPacks(fmt, am);
    }
  }

  /** The parts of a result of the normal branch. */
  lemma NormalRange(fmt: BinaryFormat, m: int, power2: int)
    requires IsFormat(fmt) && 0 <= m < 4 * Pow(2, fmt.explicitBits) && power2 >= 1
    ensures IsEncoding(fmt, Normal(fmt, m, power2)) && 0 <= Normal(fmt, m, power2).mantissa < Pow(2, fmt.explicitBits)
  {
    PowPos(2, fmt.explicitBits);
    var p := Pow(2, fmt.explicitBits);
    hide Pow, ClearHidden;
    HalfUpBound(m, p);
    var r := HalfUp(m);
    ClearHiddenFits(fmt, if r >= 2 * p then p else r);
  }

  lemma NormalPacks(fmt: BinaryFormat, m: int, power2: int)
    requires IsFormat(fmt) && 0 <= m < 4 * Pow(2, fmt.explicitBits) && power2 >= 1
    ensures Packs(fmt, Normal(fmt, m, power2))
  {
    hide *;
    NormalRange(fmt, m, power2);
    FieldsPack(fmt, Normal(fmt, m, power2));
  }

  lemma ClearHiddenFits(fmt: BinaryFormat, m: int)
    requires 0 <= m < 2 * Pow(2, fmt.explicitBits)
    ensures 0 <= ClearHidden(fmt, m) < Pow(2, fmt.explicitBits)
  {
    PowPos(2, fmt.explicitBits);
    var p := Pow(2, fmt.explicitBits);
    hide Pow;
    BelowTwice(m, p);
    QuotientZero(m, p);
  }

  /** The three ways to finish a decided product. */
  lemma FinishCases(fmt: BinaryFormat, q: int, lz: nat, product: Value128) returns (m: int, power2: int)
    requires IsFormat(fmt)
    ensures 0 <= m < 4 * Pow(2, fmt.explicitBits)
    ensures Finish(fmt, q, lz, product) in {UNDECIDED, ZERO} ||
      Finish(fmt, q, lz, product) == if power2 > 0 then Normal(fmt, m, power2) else Subnormal(fmt, m, -power2 + 1)
  {
    ShiftBound(fmt, product.high);
    hide Pow, Shr, Subnormal, Normal, Power, Dropped, Upperbit, TiesDown, InsideSafe, MayTie;
    m := Shr(product.high, Dropped(fmt, product.high));
    power2 := Power(q) + Upperbit(product.high) - lz - fmt.minimumExponent;
    if power2 > 0 && TiesDown(fmt, q, product, m) {
      TieIsPositive(fmt, q, product, m);
      m := m - 1;
    }
  }

  lemma TieIsPositive(fmt: BinaryFormat, q: int, product: Value128, m: int)
    requires IsFormat(fmt) && m >= 0 && TiesDown(fmt, q, product, m)
    ensures m >= 1
  {
  }

  /** Whatever the product, the word that to_float makes of the result is that of an encoding, although the
      subnormal branch does not clear the hidden bit. */
  lemma FinishPacks(fmt: BinaryFormat, q: int, lz: nat, product: Value128)
    requires IsFormat(fmt)
    ensures Finish(fmt, q, lz, product) == UNDECIDED || Packs(fmt, Finish(fmt, q, lz, product))
  {
    hide *;
    var m, power2 := FinishCases(fmt, q, lz, product);
    ZeroPacks(fmt);
    if power2 > 0 {
      NormalPacks(fmt, m, power2);
    } else {
      SubnormalPacks(fmt, m, -power2 + 1);
    }
  }

  /** The product lies below the normal numbers, and rounding carries it into the hidden bit. */
  predicate FillsHidden(fmt: BinaryFormat, q: int, lz: nat, product: Value128)
    requires IsFormat(fmt)
  {
    var m := Shr(product.high, Dropped(fmt, product.high));
    var power2 := Power(q) + Upperbit(product.high) - lz - fmt.minimumExponent;
    power2 <= 0 && -power2 + 1 < 64 && Shr(m, -power2 + 1) == 2 * Pow(2, fmt.explicitBits) - 1
  }

  lemma HalfUpFills(x: int, p: int)
    requires 0 <= x < 2 * p
    ensures HalfUp(x) == p <==> x == 2 * p - 1
    ensures 0 <= HalfUp(x) <= p
  {
  }

  lemma SubnormalFields(fmt: BinaryFormat, m: int, shift: nat)
    requires IsFormat(fmt) && 0 <= m < 4 * Pow(2, fmt.explicitBits) && shift >= 1
    ensures IsEncoding(fmt, Subnormal(fmt, m, shift)) <==> Shr(m, shift) != 2 * Pow(2, fmt.explicitBits) - 1
  {
    PowPos(2, fmt.explicitBits);
    PowMono(2, 1, shift);
    assert Pow(2, 1) == 2;
    hide Pow, HalfUp;
    QuarterArith(m, Pow(2, fmt.explicitBits), Pow(2, shift));
    HalfUpFills(Shr(m, shift), Pow(2, fmt.explicitBits));
  }

  /** When exactly a decided result is outside the fields of the format. */
  lemma FinishFields(fmt: BinaryFormat, q: int, lz: nat, product: Value128)
    requires IsFormat(fmt) && Finish(fmt, q, lz, product) != UNDECIDED
    ensures IsEncoding(fmt, Finish(fmt, q, lz, product)) <==> !FillsHidden(fmt, q, lz, product)
  {
    ShiftBound(fmt, product.high);
    PowPos(2, fmt.explicitBits);
    hide Pow, Shr, Subnormal, Normal, Power, Dropped, Upperbit, TiesDown, InsideSafe, MayTie;
    var m := Shr(product.high, Dropped(fmt, product.high));
    var power2 := Power(q) + Upperbit(product.high) - lz - fmt.minimumExponent;
    if power2 > 0 {
      if TiesDown(fmt, q, product, m) {
        TieIsPositive(fmt, q, product, m);
        NormalRange(fmt, m - 1, power2);
      } else {
        NormalRange(fmt, m, power2);
      }
    } else if -power2 + 1 < 64 {
      SubnormalFields(fmt, m, -power2 + 1);
    }
  }

  // A result whose fraction is one too large --------------------------------------------------------------------

  /** The word of 2.2250738585072012e-308, its normalised form, the table entry of 5^-324 and their product. */
  const EDGE_WORD: U64 := 22250738585072012
  const EDGE_SHIFTED: U64 := 11392378155556870144
  const EDGE_ENTRY: Value128 := Value128(0x52064cac828675b9, 0xcf42894a5dce35ea)
  const EDGE_PRODUCT: Value128 := Value128(0xdb591201ab8bf000, 0x7ffffffffffffd08)

  lemma EdgeProduct()
    ensures EDGE_SHIFTED == EDGE_WORD * Pow(2, 9) && EDGE_SHIFTED >= 0x8000_0000_0000_0000
    ensures Wide(EDGE_PRODUCT) == EDGE_SHIFTED * EDGE_ENTRY.high && EDGE_PRODUCT.high % Pow(2, 9) != Pow(2, 9) - 1
  {
    assert Pow(2, 9) == 512;
  }

  lemma EdgePowers()
    ensures Pow(2, 1) == 2 && Pow(2, 9) == 512 && Pow(2, 52) == 0x10_0000_0000_0000
    ensures Pow(2, 63) == 0x8000_0000_0000_0000
  {
    assert Pow(2, 1) == 2 && Pow(2, 9) == 512 && Pow(2, 26) == 67108864 && Pow(2, 11) == 2048;
    hide Pow;
    PowAdd(2, 26, 26);
    PowAdd(2, 52, 11);
  }

  lemma EdgeShifts()
    ensures Upperbit(EDGE_PRODUCT.high) == 0 && Shr(EDGE_PRODUCT.high, 9) == 0x3f_ffff_ffff_fffe && Power(-324) == -1014
    ensures Shr(0x3f_ffff_ffff_fffe, 1) == 0x1f_ffff_ffff_ffff
  {
    EdgePowers();
    hide Pow;
  }

  /** The subnormal branch rounds the product of the word and its table entry up to the hidden bit and leaves
      it set. */
  lemma EdgeResult()
    ensures Finish(BINARY64, -324, 9, EDGE_PRODUCT) == AdjustedMantissa(Pow(2, 52), 1)
    ensures EDGE_SHIFTED == EDGE_WORD * Pow(2, 9) && Wide(EDGE_PRODUCT) == EDGE_SHIFTED * EDGE_ENTRY.high
  {
    EdgeProduct();
    EdgeShifts();
    EdgePowers();
    hide Pow, Shr, Upperbit, Power;
    assert Dropped(BINARY64, EDGE_PRODUCT.high) == 9;
    assert HalfUp(0x1f_ffff_ffff_ffff) == 0x10_0000_0000_0000;
  }

  lemma FivePowers()
    ensures Pow(5, 324) == 29260477216826239544724058836616728561968895867463645727107221586627395479212497809291469359620403959019086191446375122744845858874468320028826682711297055794317158844827782681816469496395571869840068757184781134128570556640625
  {
    assert Pow(5, 10) == 9765625 && Pow(5, 4) == 625;
    hide Pow;
    PowAdd(5, 10, 10);
    assert Pow(5, 20) == 95367431640625;
    PowAdd(5, 20, 20);
    assert Pow(5, 40) == 9094947017729282379150390625;
    PowAdd(5, 40, 40);
    assert Pow(5, 80) == 82718061255302767487140869206996285356581211090087890625;
    PowAdd(5, 80, 80);
    assert Pow(5, 160) == 6842277657836020854119773355907793609766904013068924666782559979930620520927053718196475529111921787261962890625;
    PowAdd(5, 160, 160);
    assert Pow(5, 320) == 46816763546921983271558494138586765699150233387941833163371554538603832766739996494866350975392646334430537906314200196391753374199149312046122692338075289270907454151724452290906351194232914991744110011495649814605712890625;
    PowAdd(5, 320, 4);
    assert Pow(5, 324) == 29260477216826239544724058836616728561968895867463645727107221586627395479212497809291469359620403959019086191446375122744845858874468320028826682711297055794317158844827782681816469496395571869840068757184781134128570556640625;
  }

  lemma TwoPowers()
    ensures Pow(2, 750) == 5922386521532855740161817506647119732883018558947359509044845726112560091729648156474603305162988578607512400425457279991804428268870599332596921062626576000993556884845161077691136496092218188572933193945756793025561702170624
  {
    assert Pow(2, 12) == 4096 && Pow(2, 11) == 2048 && Pow(2, 1) == 2;
    hide Pow;
    PowAdd(2, 12, 11);
    assert Pow(2, 23) == 8388608;
    PowAdd(2, 23, 23);
    assert Pow(2, 46) == 70368744177664;
    PowAdd(2, 46, 46);
    assert Pow(2, 92) == 4951760157141521099596496896;
    PowAdd(2, 92, 1);
    assert Pow(2, 93) == 9903520314283042199192993792;
    PowAdd(2, 93, 93);
    assert Pow(2, 186) == 98079714615416886934934209737619787751599303819750539264;
    PowAdd(2, 186, 1);
    assert Pow(2, 187) == 196159429230833773869868419475239575503198607639501078528;
    PowAdd(2, 187, 187);
    assert Pow(2, 374) == 38478521676166483605741250097796497856523182881313912761668255277583712667477744737709244389536050430475222646784;
    PowAdd(2, 374, 1);
    assert Pow(2, 375) == 76957043352332967211482500195592995713046365762627825523336510555167425334955489475418488779072100860950445293568;
    PowAdd(2, 375, 375);
    assert Pow(2, 750) == 5922386521532855740161817506647119732883018558947359509044845726112560091729648156474603305162988578607512400425457279991804428268870599332596921062626576000993556884845161077691136496092218188572933193945756793025561702170624;
  }

  /** w * 2^750 / 5^324 is nearer to 2^52 than a half. */
  lemma EdgeBounds()
    ensures (2 * 0x10_0000_0000_0000 - 1) * Pow(5, 324) < 2 * (EDGE_WORD * Pow(2,
      750)) < (2 * 0x10_0000_0000_0000 + 1) * Pow(5, 324)
    ensures Pow(5, 324) > 0
  {
    FivePowers();
    TwoPowers();
    hide Pow;
  }

  /** The same number in units of the last place of the subnormal numbers. */
  lemma EdgeScaled() returns (y: real)
    ensures y == Shifted(Units(EDGE_WORD, -324), 1074) && y * (Pow(5, 324) as real) == (EDGE_WORD * Pow(2, 750)) as real
  {
    hide Pow, Ten, Two;
    y := Shifted(Units(EDGE_WORD, -324), 1074);
    TenAdd(324, -324);
    TenZero();
    TenIsPow(324);
    TenIsTwoFive(324);
    TwoAdd(324, 750);
    TwoIsPow(324);
    TwoIsPow(750);
    RealMul(Pow(2, 324), Pow(5, 324));
    RealMul(EDGE_WORD, Pow(2, 750));
    ScaledProduct(EDGE_WORD as real, Ten(-324), Two(324), Two(750), Pow(5, 324) as real, Ten(324));
  }

  lemma ScaledProduct(w: real, a: real, b: real, c: real, f: real, t: real)
    requires t * a == 1.0 && t == b * f
    ensures ((w * a) * (b * c)) * f == w * c
  {
    var u := w * c;
    assert ((w * a) * (b * c)) * f == u * (a * (b * f)) by {
      assert (w * a) * (b * c) == u * (a * b) by { FourFactors(w, a, b, c); }
      RMulAssoc(u, a * b, f);
      RMulAssoc(a, b, f);
    }
    assert a * (b * f) == 1.0;
  }

  lemma FourFactors(w: real, a: real, b: real, c: real)
    ensures (w * a) * (b * c) == (w * c) * (a * b)
  {
    RMulAssoc(w, a, b * c);
    RMulPull(a, c, b);
    RMulAssoc(w, c, a * b);
    assert a * (b * c) == c * (a * b) by { RMulPull(a, b, c); RMulAssoc(a, b, c); }
  }

  lemma DoubleProduct(f: real, y: real, g: real)
    requires f * y == g
    ensures f * (2.0 * y) == 2.0 * g
  {
    RMulPull(f, 2.0, y);
  }

  lemma BetweenFactors(f: real, low: real, z: real, high: real, g: real)
    requires f > 0.0 && f * z == g && f * low < g < f * high
    ensures low < z < high
  {
    RMulCancelLt(f, low, z);
    RMulCancelLt(f, z, high);
  }

  lemma NearHalf(y: real, f: real, k: int, g: real)
    requires f > 0.0 && f * y == g && f * ((2 * k - 1) as real) < 2.0 * g < f * ((2 * k + 1) as real)
    ensures NearestInteger(y, false) == k
  {
    DoubleProduct(f, y, g);
    BetweenFactors(f, (2 * k - 1) as real, 2.0 * y, (2 * k + 1) as real, 2.0 * g);
  }

  lemma EdgeFormat()
    ensures IsFormat(BINARY64) && BINARY64.explicitBits == 52 && MinQuantum(BINARY64) == -1074 <= MaxQuantum(BINARY64)
  {
  }

  lemma NearRange(y: real, n: int)
    requires NearestInteger(y, false) == n && n >= 1
    ensures 0.0 <= y < (2 * n) as real
  {
    NearestIntegerMeaning(y);
  }

  lemma EdgeNear() returns (y: real)
    ensures Units(EDGE_WORD, -324) == Shifted(y, -1074) && NearestInteger(y, false) == Pow(2, 52)
    ensures 0.0 <= y < Pow(2, 53) as real
  {
    hide *;
    EdgePowers();
    EdgeBounds();
    PowStep(2, 52);
    y := EdgeScaled();
    NearHalfInt(y, Pow(5, 324), Pow(2, 52), EDGE_WORD * Pow(2, 750));
    ShiftedBack(Units(EDGE_WORD, -324), 1074);
    NearRange(y, Pow(2, 52));
  }

  lemma PowerFields(p: int)
    requires p > 0
    ensures 0 == p % p && p < 2 * p
  {
  }

  /** The word that is packed for it is nevertheless that of the nearest number, the smallest normal one. */
  lemma EdgeEncodes()
    ensures Encodes(BINARY64, Units(EDGE_WORD, -324), Packed(BINARY64, AdjustedMantissa(Pow(2, 52), 1)))
  {
    PowStep(2, 52);
    PowPos(2, 52);
    hide *;
    EdgeFormat();
    PackedCarry(BINARY64, AdjustedMantissa(Pow(2, 52), 1));
    var y := EdgeNear();
    PowerFields(Pow(2, 52));
    PackCorrect(BINARY64, Units(EDGE_WORD, -324), y, -1074, Pow(2, 52), AdjustedMantissa(0, 1));
    MakeEncodes(BINARY64, Units(EDGE_WORD, -324), Packed(BINARY64, AdjustedMantissa(Pow(2, 52), 1)));
  }

  lemma MakeEncodes(fmt: BinaryFormat, x: real, word: nat)
    requires IsRoundTiesToEven(fmt, x, Fields(fmt, word))
    ensures Encodes(fmt, x, word)
  {
  }

  lemma NearHalfInt(y: real, f: int, k: int, g: int)
    requires f > 0 && y * (f as real) == g as real && (2 * k - 1) * f < 2 * g < (2 * k + 1) * f
    ensures NearestInteger(y, false) == k
  {
    RealMul(f, 2 * k - 1);
    RealMul(f, 2 * k + 1);
    NearHalf(y, f as real, k, g as real);
  }
}
