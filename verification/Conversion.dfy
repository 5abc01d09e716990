/** compute_float on a multi-digit decimal: scaling by shifts into [1/2, 1), then one rounding. */
module Conversion {
  import opened Powers
  import opened Digits
  import opened Pow5Table
  import opened Ieee754
  import opened Decimals

  /** The largest shift that keeps a number with n digits before the point at 1/10 or more. */
  const DECIMAL_POWERS: seq<nat> := [0, 3, 6, 9, 13, 16, 19, 23, 26, 29, 33, 36, 39, 43, 46, 49, 53, 56, 59]

  function ShiftFor(n: nat): nat {
    if n < |DECIMAL_POWERS| then DECIMAL_POWERS[n] else MAX_SHIFT
  }

  // How a shift moves the decimal point -------------------------------------------------------------

  /** x has the leading decimal digit `lead` just behind the point. */
  ghost predicate Leads(x: real, point: int, lead: int) {
    1 <= lead <= 9 && lead as real * Ten(point - 1) <= x < (lead + 1) as real * Ten(point - 1)
  }

  lemma LeadsRange(x: real, point: int, lead: int)
    requires Leads(x, point, lead)
    ensures 0.0 < Ten(point - 1) <= x < Ten(point)
  {
    TenPos(point - 1);
    TenStep(point - 1);
    hide Ten;
    var u := Ten(point - 1);
    RMulMono(u, 1.0, lead as real);
    RMulMono(u, (lead + 1) as real, 10.0);
    assert u * 10.0 == Ten(point);
  }

  /** A stored number and the number it was cut from have the same point and leading digit. */
  lemma StoredLeads(s: seq<int>, point: int, x: real)
    requires IsDigits(s) && s != [] && s[0] != 0 && |s| <= MAX_DIGITS
    requires Val(s, point) <= x < Val(s, point) + Ten(point - MAX_DIGITS)
    ensures Leads(x, point, s[0]) && Leads(Val(s, point), point, s[0])
  {
    hide Val, Ten;
    ValLead(s, point);
    TenPos(point - MAX_DIGITS);
    TenMono(point - MAX_DIGITS, point - |s|);
  }

  lemma ShiftedAtMost(b: real, s: nat, e: int, g: nat)
    requires 0.0 <= b < Ten(e)
    requires Pow(2, s) <= Pow(10, g)
    ensures Shifted(b, s) < Ten(e + g)
  {
    hide Pow, Ten, Two;
    TwoIsPow(s);
    TenIsPow(g);
    TenPos(g);
    TenAdd(e, g);
    ProductLess(b, Two(s), Ten(e), Ten(g));
  }

  lemma ProductLess(a: real, b: real, c: real, d: real)
    requires 0.0 <= a < c && b <= d && 0.0 < d
    ensures a * b < c * d
  {
    RMulMono(a, b, d);
    RMulMonoStrict(d, a, c);
  }

  lemma ProductAtMost(a: real, b: real, c: real, d: real)
    requires 0.0 <= a <= c && b <= d && 0.0 <= d
    ensures a * b <= c * d
  {
    RMulMono(a, b, d);
    RMulMono(d, a, c);
  }

  lemma ShiftedAtLeast(b: real, s: nat, e: int, g: nat)
    requires b >= Ten(e) && Pow(2, s) >= Pow(10, g)
    ensures Shifted(b, s) >= Ten(e + g)
  {
    hide Pow, Ten, Two;
    TwoIsPow(s);
    TenIsPow(g);
    TenPos(e);
    TwoPos(s);
    TenAdd(e, g);
    ProductAtMost(Ten(e), Ten(g), b, Two(s));
  }

  /** Multiplying by 2^s moves the point up by at least down and at most up places, and a point that
      stays means a leading digit that at least doubles. */
  lemma ShiftMovesPoint(v: real, p: int, l: int, s: nat, x: real, p': int, l': int, down: nat, up: nat)
    requires Leads(v, p, l) && Leads(x, p', l') && x == Shifted(v, s)
    requires Pow(10, down) <= Pow(2, s) <= Pow(10, up)
    ensures p + down <= p' <= p + up
    ensures s >= 1 ==> p' > p || l' >= 2 * l
  {
    hide Leads, Ten, Pow, Shifted;
    LeadsRange(v, p, l);
    LeadsRange(x, p', l');
    ShiftedAtLeast(v, s, p - 1, down);
    ShiftedAtMost(v, s, p, up);
    TenLtInverse(p - 1 + down, p');
    TenLtInverse(p' - 1, p + up);
    if s >= 1 && p' == p {
      DoubleLead(v, p, l, s, x, l');
    }
  }

  lemma DoubleLead(v: real, p: int, l: int, s: nat, x: real, l': int)
    requires Leads(v, p, l) && Leads(x, p, l') && x == Shifted(v, s) && s >= 1
    ensures l' >= 2 * l
  {
    TenPos(p - 1);
    TwoMono(1, s);
    assert Two(1) == 2.0;
    hide Ten, Two;
    DoubleArith(v, l, x, l', Ten(p - 1), Two(s));
  }

  lemma DoubleArith(v: real, l: int, x: real, l': int, u: real, t: real)
    requires u > 0.0 && t >= 2.0 && l >= 1 && x == v * t
    requires l as real * u <= v && x < (l' + 1) as real * u
    ensures l' >= 2 * l
  {
    var low := l as real * u;
    RMulMono(u, 0.0, l as real);
    RMulMono(low, 2.0, t);
    RMulMono(t, low, v);
    assert low * 2.0 == u * (2 * l) as real;
    RMulCancelLt(u, (2 * l) as real, (l' + 1) as real);
  }

  // When a shift loses nothing ----------------------------------------------------------------------

  /** y is a whole number of units 10^e. */
  ghost predicate Multiple(y: real, e: int) {
    exists k: int :: Units(k, e) == y
  }

  lemma MultipleWeaken(y: real, e: int, c: int)
    requires Multiple(y, e) && c <= e
    ensures Multiple(y, c)
  {
    hide Ten, Pow;
    var k: int :| Units(k, e) == y;
    TenSplit(e - c, c);
    RealMul(k, Pow(10, e - c));
    RMulAssoc(k as real, Pow(10, e - c) as real, Ten(c));
    assert Units(k * Pow(10, e - c), c) == y;
  }

  /** Scaling by 2^-t adds at most t decimal places. */
  lemma MultipleShift(x: real, e: int, t: int)
    requires Multiple(x, e)
    ensures Multiple(Shifted(x, -t), e - if t > 0 then t else 0)
  {
    hide Ten, Two, Pow;
    var k: int :| Units(k, e) == x;
    if t <= 0 {
      TwoIsPow(-t);
      RealMul(k, Pow(2, -t));
      RMulSwapLast(k as real, Ten(e), Two(-t));
      assert Units(k * Pow(2, -t), e) == Shifted(x, -t);
    } else {
      TenIsTwoFive(t);
      TwoIsPow(t);
      TwoAdd(t, -t);
      TwoZero();
      TenSplit(t, e - t);
      RealMul(Pow(2, t), Pow(5, t));
      RealMul(k, Pow(5, t));
      FiveForTwo(k as real, Two(t), Two(-t), Pow(5, t) as real, Ten(e - t), Ten(e));
      assert Units(k * Pow(5, t), e - t) == Shifted(x, -t);
    }
  }

  lemma FiveForTwo(k: real, two: real, two': real, five: real, unit: real, ten: real)
    requires two * two' == 1.0 && (two * five) * unit == ten
    ensures (k * five) * unit == (k * ten) * two'
  {
    var z := (k * five) * unit;
    assert k * ten == z * two;
    RMulAssoc(z, two, two');
  }

  lemma ValMultiple(s: seq<int>, point: int)
    ensures Multiple(Val(s, point), point - |s|)
  {
    hide Ten, Numeral;
    assert Units(Numeral(s), point - |s|) == Val(s, point);
  }

  /** A number that fits the 768 places is stored as it is. */
  lemma HeldMultiple(s: seq<int>, point: int, y: real)
    requires |s| <= MAX_DIGITS && Multiple(y, point - MAX_DIGITS)
    requires Val(s, point) <= y < Val(s, point) + Ten(point - MAX_DIGITS)
    ensures Val(s, point) == y
  {
    hide Ten, Val;
    ValMultiple(s, point);
    MultipleWeaken(Val(s, point), point - |s|, point - MAX_DIGITS);
    SameMultiple(Val(s, point), y, point - MAX_DIGITS);
  }

  lemma SameMultiple(v: real, y: real, e: int)
    requires Multiple(v, e) && Multiple(y, e) && v <= y < v + Ten(e)
    ensures v == y
  {
    hide Ten, Units;
    var j: int :| Units(j, e) == v;
    var k: int :| Units(k, e) == y;
    UnitsApart(j, k, e);
    UnitsApart(k, j, e);
  }

  lemma UnitsApart(j: int, k: int, e: int)
    ensures j < k ==> Units(j, e) + Ten(e) <= Units(k, e)
    ensures Ten(e) > 0.0
  {
    hide Ten;
    TenPos(e);
    RMulSplit(j as real, Ten(e));
    if j < k {
      RMulMono(Ten(e), (j + 1) as real, k as real);
    }
  }

  /** A scaled number that needs no more than 768 places, in units of x. */
  lemma ScaledFits(d: Decimal, x: real, places: int, y: real, exp2: int)
    requires d.Holds(y) && Multiple(x, -places) && Shifted(y, exp2) == x
    requires Fits(places, exp2, d.decimalPoint)
    ensures d.Value() == y
  {
    hide Val, Ten, Shifted, Multiple;
    ShiftedBack(y, exp2);
    MultipleShift(x, -places, exp2);
    MultipleWeaken(y, -places - (if exp2 > 0 then exp2 else 0), d.decimalPoint - MAX_DIGITS);
    HeldMultiple(d.Digits(), d.decimalPoint, y);
  }

  /** No digit is lost in a shift whose result fits. */
  ghost predicate Fits(places: int, exp2: int, point: int) {
    places + (if exp2 > 0 then exp2 else 0) + point <= MAX_DIGITS
  }

  // The scaling loops --------------------------------------------------------------------------------

  /** The table picks shifts of at least three bits that stay below n decimal digits. */
  lemma ShiftForMeaning(n: nat)
    requires n >= 1
    ensures 3 <= ShiftFor(n) <= MAX_SHIFT && Pow(2, ShiftFor(n)) <= Pow(10, n)
    ensures n >= 2 ==> ShiftFor(n) <= 6 * (ShiftFor(n) / 4)
  {
    hide Packed, Pow;
    var s := ShiftFor(n);
    GrowthFor(n);
    TwoByGrowth(s);
    PowMono(10, Packed(s) / 0x800, n);
  }

  lemma GrowthFor(n: nat)
    requires n >= 1
    ensures 3 <= ShiftFor(n) <= MAX_SHIFT && 0 <= Packed(ShiftFor(n)) / 0x800 <= n
  {
  }

  /** 2^s has at most as many digits as 10^s has over 5^s. */
  lemma TwoByGrowth(s: nat)
    requires 1 <= s <= MAX_SHIFT
    ensures 1 <= Packed(s) / 0x800 && Pow(2, s) <= Pow(10, Packed(s) / 0x800)
  {
    hide Packed, Pow, Table, Row;
    TableMeaning(s);
    var len, g := |Row(s)|, Packed(s) / 0x800;
    TenIsTwoFive(s);
    PowAdd(10, g, len - 1);
    PowPos(10, len - 1);
    PowPos(2, s);
    MulMono(Pow(2, s), Pow(10, len - 1), Pow(5, s));
    MulCancelLe(Pow(10, len - 1), Pow(2, s), Pow(10, g));
  }

  lemma {:induction false} TenBySixteen(g: nat, s: nat)
    requires 4 * g <= s
    ensures Pow(10, g) <= Pow(2, s)
  {
    if g == 0 {
      PowPos(2, s);
    } else {
      TenBySixteen(g - 1, s - 4);
      PowAdd(2, 4, s - 4);
      assert Pow(2, 4) == 16;
      PowPos(10, g - 1);
    }
  }

  lemma {:induction false} TwoByTen(s: nat)
    ensures Pow(2, s) <= Pow(10, s)
  {
    if s > 0 {
      TwoByTen(s - 1);
      PowPos(2, s - 1);
    }
  }

  /** A right shift by at most 60 bits cannot reach the underflow branch from a moderate point. */
  lemma NoUnderflow(v: real, p: int, l: int, s: int)
    requires Leads(v, p, l) && 0 <= s && p - s >= -DECIMAL_POINT_RANGE
    ensures Shifted(v, -s) >= Ten(-DECIMAL_POINT_RANGE - 1)
  {
    hide Ten, Two, Pow;
    LeadsRange(v, p, l);
    TwoByTen(s);
    TwoIsPow(s);
    TenIsPow(s);
    TwoAdd(s, -s);
    TenAdd(s, p - 1 - s);
    TwoZero();
    TwoPos(-s);
    TenPos(p - 1 - s);
    TenMono(-DECIMAL_POINT_RANGE - 1, p - 1 - s);
    DivideBound(v, Two(s), Two(-s), Ten(s), Ten(p - 1 - s));
  }

  lemma DivideBound(v: real, t: real, t': real, g: real, u: real)
    requires v >= g * u && g >= t && t * t' == 1.0 && t' > 0.0 && u > 0.0
    ensures v * t' >= u
  {
    RMulMono(u, t, g);
    RMulMono(t', t * u, v);
    RMulAssoc(u, t, t');
  }

  /** The state of a run: what the buffer holds, scaled by 2^exp2, is still the number x. */
  ghost predicate Tracks(d: Decimal, x: real, exp2: int)
    reads d, d.digits
  {
    d.Valid() && d.numDigits > 0 && (!d.truncated ==> Shifted(d.Value(), exp2) == x)
  }

  ghost function Lead(d: Decimal): int
    requires d.Valid() && d.numDigits > 0
    reads d, d.digits
  {
    d.digits[0]
  }

  lemma ValueLeads(d: Decimal)
    requires d.Valid() && d.numDigits > 0
    ensures Leads(d.Value(), d.decimalPoint, d.digits[0])
  {
    hide Val, Ten;
    TenPos(d.decimalPoint - MAX_DIGITS);
    StoredLeads(d.Digits(), d.decimalPoint, d.Value());
  }

  lemma HeldLeads(d: Decimal, x: real)
    requires d.Holds(x) && d.numDigits > 0
    ensures Leads(x, d.decimalPoint, d.digits[0])
  {
    StoredLeads(d.Digits(), d.decimalPoint, x);
  }

  lemma ShiftedBack(x: real, s: int)
    ensures Shifted(Shifted(x, -s), s) == x == Shifted(Shifted(x, s), -s)
  {
    ShiftedAdd(x, -s, s);
    ShiftedAdd(x, s, -s);
    ShiftedZero(x);
  }

  /** One right shift of a scaling loop: the run stays on course, and the point moves down. */
  method ScaleRight(d: Decimal, shift: int, ghost x: real, ghost exp2: int, ghost places: int)
    requires Tracks(d, x, exp2) && 1 <= shift <= MAX_SHIFT
    requires d.decimalPoint - shift >= -DECIMAL_POINT_RANGE
    modifies d, d.digits
    ensures Tracks(d, x, exp2 + shift) && (old(d.truncated) ==> d.truncated)
    ensures old(d.decimalPoint) - shift <= d.decimalPoint <= old(d.decimalPoint)
    ensures forall g: nat {:trigger Pow(10, g)} :: Pow(2, shift) <= Pow(10, g) ==>
      d.decimalPoint >= old(d.decimalPoint) - g
    ensures d.decimalPoint < old(d.decimalPoint) || d.digits[0] < old(d.digits[0])
    ensures d.Holds(Shifted(old(d.Value()), -shift))
    ensures !d.truncated ==> d.Value() == Shifted(old(d.Value()), -shift)
    ensures !old(d.truncated) && Multiple(x, -places) && Fits(places, exp2 + shift, d.decimalPoint) ==> !d.truncated
  {
    hide Leads, Shifted, Ten, Pow, Val, Multiple, Fits;
    ghost var v, p, l := d.Value(), d.decimalPoint, Lead(d);
    ValueLeads(d);
    NoUnderflow(v, p, l, shift);
    d.RightShift(shift);
    ghost var y := Shifted(v, -shift);
    HeldLeads(d, y);
    ShiftedBack(v, shift);
    ShiftedAdd(v, -shift, exp2 + shift);
    if !old(d.truncated) && Multiple(x, -places) && Fits(places, exp2 + shift, d.decimalPoint) {
      ScaledFits(d, x, places, y, exp2 + shift);
    }
    TwoByTen(shift);
    PowZero(10);
    PowPos(2, shift);
    ShiftMovesPoint(y, d.decimalPoint, Lead(d), shift, v, p, l, 0, shift);
    forall g: nat {:trigger Pow(10, g)} | Pow(2, shift) <= Pow(10, g)
      ensures d.decimalPoint >= p - g
    {
      ShiftMovesPoint(y, d.decimalPoint, Lead(d), shift, v, p, l, 0, g);
    }
  }

  /** One left shift of a scaling loop. */
  method ScaleLeft(d: Decimal, shift: int, ghost x: real, ghost exp2: int, ghost places: int)
    requires Tracks(d, x, exp2) && 1 <= shift <= MAX_SHIFT
    modifies d, d.digits
    ensures Tracks(d, x, exp2 - shift) && (old(d.truncated) ==> d.truncated)
    ensures d.decimalPoint >= old(d.decimalPoint) + shift / 4
    ensures d.decimalPoint > old(d.decimalPoint) || d.digits[0] >= 2 * old(d.digits[0])
    ensures d.Holds(Shifted(old(d.Value()), shift))
    ensures !d.truncated ==> d.Value() == Shifted(old(d.Value()), shift)
    ensures !old(d.truncated) && Multiple(x, -places) && Fits(places, exp2 - shift, d.decimalPoint) ==> !d.truncated
  {
    hide Leads, Shifted, Ten, Pow, Val, Multiple, Fits;
    ghost var v, p, l := d.Value(), d.decimalPoint, Lead(d);
    ValueLeads(d);
    d.LeftShift(shift);
    ghost var y := Shifted(v, shift);
    HeldLeads(d, y);
    ShiftedBack(v, shift);
    ShiftedAdd(v, shift, exp2 - shift);
    if !old(d.truncated) && Multiple(x, -places) && Fits(places, exp2 - shift, d.decimalPoint) {
      ScaledFits(d, x, places, y, exp2 - shift);
    }
    TwoByTen(shift);
    TenBySixteen(shift / 4, shift);
    ShiftMovesPoint(v, p, l, shift, y, d.decimalPoint, Lead(d), shift / 4, shift);
  }

  /** The first loop: right shifts until no digit stands before the point. The exit for a point
      below the range is never taken. */
  method ShiftDown(d: Decimal, ghost x: real, ghost places: int) returns (exp2: int)
    requires Tracks(d, x, 0) && -324 <= d.decimalPoint < 310
    modifies d, d.digits
    ensures Tracks(d, x, exp2) && (old(d.truncated) ==> d.truncated)
    ensures exp2 >= 0 && -324 <= d.decimalPoint <= 0
    ensures !old(d.truncated) && Multiple(x, -places) && places + BitsAbove(old(d.decimalPoint)) <= MAX_DIGITS ==>
      !d.truncated && exp2 <= BitsAbove(old(d.decimalPoint))
  {
    hide Pow, Shifted, Val, Ten, Multiple;
    exp2 := 0;
    ghost var top := d.decimalPoint;
    ghost var fits := !d.truncated && Multiple(x, -places) && places + BitsAbove(top) <= MAX_DIGITS;
    ValueLeads(d);
    LeadsRange(d.Value(), top, d.digits[0]);
    ShiftedZero(d.Value());
    while d.decimalPoint > 0
      invariant Tracks(d, x, exp2) && (old(d.truncated) ==> d.truncated)
      invariant exp2 >= 0 && -324 <= d.decimalPoint <= top < 310
      invariant fits ==> !d.truncated && exp2 <= BitsAbove(top)
      decreases d.decimalPoint, d.digits[0]
    {
      ghost var v := d.Value();
      var n := d.decimalPoint;
      var shift := ShiftFor(n);
      ShiftForMeaning(n);
      ScaleRight(d, shift, x, exp2, places);
      if fits {
        DownBits(d, v, shift, x, exp2, top);
      }
      assert d.decimalPoint >= -DECIMAL_POINT_RANGE;
      exp2 := exp2 + shift;
    }
  }

  /** An upper bound on the bits of a number with `point` digits before the point. */
  function BitsAbove(point: int): int {
    if point > 0 then 10 * ((point + 3) / 3) + 2 else 0
  }

  /** The bits shifted out so far are fewer than those of the digits that went with them. */
  lemma DownBits(d: Decimal, v: real, shift: int, x: real, exp2: int, top: int)
    requires d.Holds(Shifted(v, -shift)) && d.numDigits > 0 && Shifted(v, exp2) == x && exp2 + shift >= 0
    requires 0 <= d.decimalPoint <= top && 0 < top && x < Ten(top)
    ensures exp2 + shift + d.decimalPoint <= BitsAbove(top)
  {
    hide Leads, Shifted, Ten, Pow, Val;
    var y, e, p := Shifted(v, -shift), exp2 + shift, d.decimalPoint;
    HeldLeads(d, y);
    LeadsRange(y, p, d.digits[0]);
    ShiftedAdd(v, -shift, e);
    assert Shifted(y, e) == x;
    var k := (top - p + 3) / 3;
    if e >= 10 * k {
      ThousandBits(k, e);
      PowMono(10, top - p + 1, 3 * k);
      ShiftedAtLeast(y, e, p - 1, top - p + 1);
      assert false;
    }
  }

  lemma {:induction false} ThousandBits(k: nat, e: nat)
    requires 10 * k <= e
    ensures Pow(10, 3 * k) <= Pow(2, e)
  {
    if k == 0 {
      PowPos(2, e);
    } else {
      ThousandBits(k - 1, e - 10);
      PowAdd(2, 10, e - 10);
      PowAdd(10, 3, 3 * (k - 1));
      assert Pow(2, 10) == 1024 && Pow(10, 3) == 1000;
      PowPos(10, 3 * (k - 1));
      hide Pow;
      ProductAtMostInt(1000, Pow(10, 3 * (k - 1)), 1024, Pow(2, e - 10));
    }
  }

  /** How far exp2 can have gone down when the point has come up to `point`: six bits a digit,
      and a little more while the leading digit grows in place. */
  ghost function Floor2(point: int, lead: int): int {
    -6 * (324 + point) - if point == -1 then 3 * lead else if point == 0 then 30 + 2 * lead else 0
  }

  /** One of those shifts, by too little to reach one. */
  method UpStep(d: Decimal, shift: int, ghost x: real, ghost exp2: int, ghost places: int)
    requires Tracks(d, x, exp2) && 1 <= shift <= MAX_SHIFT && Shifted(d.Value(), shift) < 1.0
    modifies d, d.digits
    ensures Tracks(d, x, exp2 - shift) && (old(d.truncated) ==> d.truncated)
    ensures old(d.decimalPoint) + shift / 4 <= d.decimalPoint <= 0
    ensures d.decimalPoint > old(d.decimalPoint) || d.digits[0] >= 2 * old(d.digits[0])
    ensures !old(d.truncated) && Multiple(x, -places) && Fits(places, exp2 - shift, d.decimalPoint) ==> !d.truncated
  {
    hide Pow, Shifted, Val, Ten, Multiple, Leads, Two, Fits;
    ghost var v := d.Value();
    ScaleLeft(d, shift, x, exp2, places);
    ValueLeads(d);
    PointFromBound(d, Shifted(v, shift));
  }

  /** The second loop: left shifts until the number reaches one half. The shifts never carry it
      to one, so the loop ends only there. */
  method ShiftUp(d: Decimal, start: int, ghost x: real, ghost places: int) returns (exp2: int)
    requires Tracks(d, x, start) && start >= 0 && -324 <= d.decimalPoint <= 0
    modifies d, d.digits
    ensures Tracks(d, x, exp2) && (old(d.truncated) ==> d.truncated)
    ensures d.decimalPoint == 0 && d.digits[0] >= 5
    ensures -2000 <= exp2 <= start
    ensures !old(d.truncated) && Multiple(x, -places) && places + start <= MAX_DIGITS ==> !d.truncated
  {
    hide Pow, Shifted, Val, Ten, Multiple, Leads, Two;
    ghost var fits := !d.truncated && Multiple(x, -places) && places + start <= MAX_DIGITS;
    exp2 := start;
    while d.decimalPoint <= 0
      invariant Tracks(d, x, exp2) && (old(d.truncated) ==> d.truncated)
      invariant -324 <= d.decimalPoint <= 0
      invariant Floor2(d.decimalPoint, d.digits[0]) <= exp2 <= start && (fits ==> !d.truncated)
      decreases -d.decimalPoint, 9 - d.digits[0]
    {
      var shift: int;
      ghost var v, p, l := d.Value(), d.decimalPoint, d.digits[0];
      ValueLeads(d);
      if d.decimalPoint == 0 {
        if d.digits[0] >= 5 {
          break;
        }
        shift := if d.digits[0] < 2 then 2 else 1;
        BelowOneNear(v, l, shift);
      } else {
        var n := -d.decimalPoint;
        shift := ShiftFor(n);
        ShiftForMeaning(n);
        BelowOneFar(v, p, l, shift);
      }
      UpStep(d, shift, x, exp2, places);
      assert d.decimalPoint <= DECIMAL_POINT_RANGE;
      exp2 := exp2 - shift;
    }
  }

  lemma BelowOneNear(v: real, l: int, shift: nat)
    requires Leads(v, 0, l) && l < 5 && shift == if l < 2 then 2 else 1
    ensures Shifted(v, shift) < 1.0
  {
    assert Ten(-1) == 0.1;
    assert Two(1) == 2.0 && Two(2) == 4.0;
    assert v < (l + 1) as real * 0.1;
  }

  lemma BelowOneFar(v: real, p: int, l: int, shift: nat)
    requires Leads(v, p, l) && p < 0 && Pow(2, shift) <= Pow(10, -p)
    ensures Shifted(v, shift) < 1.0
  {
    hide Leads, Ten, Pow, Shifted;
    LeadsRange(v, p, l);
    ShiftedAtMost(v, shift, p, -p);
    TenZero();
  }

  lemma PointFromBound(d: Decimal, y: real)
    requires d.Holds(y) && d.numDigits > 0 && y < 1.0
    ensures d.decimalPoint <= 0
  {
    hide Leads, Ten, Val;
    HeldLeads(d, y);
    LeadsRange(y, d.decimalPoint, d.digits[0]);
    TenZero();
    TenLtInverse(d.decimalPoint - 1, 0);
  }

  /** The third loop: right shifts up to the smallest exponent of the format. */
  method ShiftSubnormal(fmt: BinaryFormat, d: Decimal, start: int, ghost x: real, ghost places: int) returns (exp2: int)
    requires IsFormat(fmt) && Tracks(d, x, start + 1) && start >= -2001
    requires d.decimalPoint == 0 && d.digits[0] >= 5
    modifies d, d.digits
    ensures Tracks(d, x, exp2 + 1) && (old(d.truncated) ==> d.truncated)
    ensures exp2 >= fmt.minimumExponent + 1 && d.decimalPoint <= 0
    ensures exp2 == fmt.minimumExponent + 1 || (d.decimalPoint == 0 && d.digits[0] >= 5)
    ensures exp2 <= fmt.minimumExponent + 1 || exp2 == start
    ensures !old(d.truncated) && Multiple(x, -places) && places <= MAX_DIGITS ==> !d.truncated
  {
    hide Pow, Shifted, Val, Ten, Multiple;
    ghost var fits := !d.truncated && Multiple(x, -places) && places <= MAX_DIGITS;
    exp2 := start;
    while fmt.minimumExponent + 1 > exp2
      invariant Tracks(d, x, exp2 + 1) && (old(d.truncated) ==> d.truncated)
      invariant -2001 - exp2 <= d.decimalPoint <= 0
      invariant exp2 <= fmt.minimumExponent + 1 || (exp2 == start && d.decimalPoint == 0 && d.digits[0] >= 5)
      invariant fits ==> !d.truncated
    {
      var n := fmt.minimumExponent + 1 - exp2;
      if n > MAX_SHIFT {
        n := MAX_SHIFT;
      }
      ScaleRight(d, n, x, exp2 + 1, places);
      exp2 := exp2 + n;
    }
  }

  /** Shifting a fraction left by the significand size. */
  lemma SignificandRange(fmt: BinaryFormat, v: real, p: int, l: int)
    requires IsFormat(fmt) && Leads(v, p, l) && p <= 0
    ensures var y := Shifted(v, fmt.explicitBits + 1);
      && 0.0 <= y < Pow(2, fmt.explicitBits + 1) as real && y < Ten(16)
      && (p == 0 && l >= 5 ==> y >= Pow(2, fmt.explicitBits) as real)
  {
    hide Leads, Shifted, Ten, Pow, Two;
    var size := fmt.explicitBits + 1;
    LeadsRange(v, p, l);
    TenMono(p, 0);
    TenZero();
    PointShift(size);
    ShiftedMono(v, 1.0, size);
    ShiftedMono(0.0, v, size);
    SixteenDigits(fmt);
    ShiftedAtMost(v, size, 0, 16);
    if p == 0 && l >= 5 {
      LeadHalf(v, l);
      ShiftedMono(0.5, v, size);
    }
  }

  lemma PointShift(size: nat)
    requires size >= 1
    ensures Shifted(1.0, size) == Pow(2, size) as real && Shifted(0.0, size) == 0.0
    ensures Shifted(0.5, size) == Pow(2, size - 1) as real
  {
    hide Two, Pow;
    TwoIsPow(size);
    TwoIsPow(size - 1);
    TwoStep(size - 1);
  }

  lemma LeadHalf(v: real, l: int)
    requires Leads(v, 0, l) && l >= 5
    ensures v >= 0.5
  {
    assert Ten(-1) == 0.1;
    assert l as real * 0.1 <= v;
  }

  lemma SixteenDigits(fmt: BinaryFormat)
    requires IsFormat(fmt)
    ensures Pow(2, fmt.explicitBits + 1) <= Pow(10, 16)
  {
    hide Pow;
    TwoByGrowth(fmt.explicitBits + 1);
    PowMono(10, Packed(fmt.explicitBits + 1) / 0x800, 16);
  }

  lemma PointBelow(y: real, p: int, l: int, g: int)
    requires Leads(y, p, l) && y < Ten(g)
    ensures p <= g
  {
    hide Leads, Ten;
    LeadsRange(y, p, l);
    TenLtInverse(p - 1, g);
  }

  lemma RoundsUpLarge(y: real, p: int, l: int, more: bool)
    requires Leads(y, p, l) && NearestInteger(y, more) >= 1
    ensures p >= 0
  {
    hide Leads, Ten;
    LeadsRange(y, p, l);
    if p < 0 {
      TenMono(p, -1);
      TenStep(-1);
      TenZero();
      SmallRoundsToZero(y, more);
    }
  }

  lemma SmallRoundsToZero(y: real, more: bool)
    requires 0.0 <= y < 0.5
    ensures NearestInteger(y, more) == 0
  {
    assert y.Floor == 0;
  }

  /** A carry out of the significand: both roundings of the halved number agree. */
  lemma CarryRounds(fmt: BinaryFormat, y: real)
    requires 0.0 <= y < Pow(2, fmt.explicitBits + 1) as real
    requires NearestInteger(y, false) >= Pow(2, fmt.explicitBits + 1)
    ensures NearestInteger(y, false) == Pow(2, fmt.explicitBits + 1)
    ensures y >= Pow(2, fmt.explicitBits + 1) as real - 0.5 && y >= Pow(2, fmt.explicitBits) as real
    ensures NearestInteger(Shifted(y, -1), false) == Pow(2, fmt.explicitBits)
  {
    PowPos(2, fmt.explicitBits);
    PowStep(2, fmt.explicitBits);
    assert Two(-1) == 0.5;
    hide Pow;
    HalfRounds(y, Pow(2, fmt.explicitBits));
  }

  lemma HalfRounds(y: real, h: int)
    requires 0.0 <= y < (2 * h) as real && NearestInteger(y, false) >= 2 * h && h >= 1
    ensures NearestInteger(y, false) == 2 * h && y >= (2 * h) as real - 0.5
    ensures NearestInteger(y * 0.5, false) == h
  {
    assert y.Floor == 2 * h - 1;
    assert (y * 0.5).Floor == h - 1;
  }

  lemma OverflowRounds(fmt: BinaryFormat, x: real, y: real, q: int)
    requires x == Shifted(y, q) && q == MaxQuantum(fmt) && y >= Pow(2, fmt.explicitBits + 1) as real - 0.5
    ensures IsRoundTiesToEven(fmt, x, Infinity(fmt))
  {
    hide Shifted, Pow;
    ShiftedMono(Pow(2, fmt.explicitBits + 1) as real - 0.5, y, q);
  }

  /** The rounding at the end, with the carry into the next binade. */
  method RoundAndPack(fmt: BinaryFormat, d: Decimal, start: int, ghost x: real, ghost places: int)
    returns (answer: AdjustedMantissa)
    requires IsFormat(fmt) && Tracks(d, x, start + 1)
    requires fmt.minimumExponent + 1 <= start < fmt.minimumExponent + fmt.infinitePower && d.decimalPoint <= 0
    requires start == fmt.minimumExponent + 1 || (d.decimalPoint == 0 && d.digits[0] >= 5)
    modifies d, d.digits
    ensures old(d.truncated) ==> d.truncated
    ensures !d.truncated ==> IsRoundTiesToEven(fmt, x, answer)
    ensures IsEncoding(fmt, answer)
    ensures !old(d.truncated) && Multiple(x, -places) && Fits(places, start + 1, 0) && Fits(places, 0, 16) ==>
      !d.truncated
  {
    hide Pow, Shifted, Val, Ten, Two, NearestInteger, IsRoundTiesToEven, Leads, Multiple;
    var exp2 := start;
    var size := fmt.explicitBits + 1;
    ghost var v, q := d.Value(), exp2 - fmt.explicitBits;
    ValueLeads(d);
    SignificandRange(fmt, v, d.decimalPoint, d.digits[0]);
    ScaleLeft(d, size, x, exp2 + 1, places);
    HeldLeads(d, Shifted(v, size));
    PointBelow(Shifted(v, size), d.decimalPoint, d.digits[0], 16);
    ghost var y := d.Value();
    var mantissa := d.Round();
    if mantissa >= Pow(2, size) {
      ValueLeads(d);
      RoundsUpLarge(y, d.decimalPoint, d.digits[0], d.truncated);
      ScaleRight(d, 1, x, q, places);
      exp2 := exp2 + 1;
      mantissa := d.Round();
      if !d.truncated {
        CarryRounds(fmt, y);
      }
      if exp2 - fmt.minimumExponent >= fmt.infinitePower {
        answer := Infinity(fmt);
        if !d.truncated {
          OverflowRounds(fmt, x, y, q);
        }
        return;
      }
    }
    var power2 := exp2 - fmt.minimumExponent;
    PowPos(2, fmt.explicitBits);
    if mantissa < Pow(2, fmt.explicitBits) {
      power2 := power2 - 1;
    }
    answer := AdjustedMantissa(mantissa % Pow(2, fmt.explicitBits), power2);
    if !d.truncated {
      if exp2 == start {
        PackCorrect(fmt, x, y, q, mantissa, answer);
      } else {
        ModShift(mantissa, Pow(2, fmt.explicitBits));
        PackCarry(fmt, x, y, q, answer);
      }
    }
  }

  /** Digits and point for which no shift of the whole conversion can lose a digit. A decimal
      between 0.1 and 1 may have 752 digits, any decimal of the accepted range 35. */
  predicate WithinBudget(numDigits: int, decimalPoint: int) {
    numDigits - decimalPoint + 16 <= MAX_DIGITS &&
    numDigits - decimalPoint + BitsAbove(decimalPoint) <= MAX_DIGITS
  }

  /** The encoding nearest to the decimal, ties to even, whenever no digit was lost on the way. */
  method ComputeFloat(fmt: BinaryFormat, d: Decimal) returns (answer: AdjustedMantissa)
    requires IsFormat(fmt) && d.Valid()
    modifies d, d.digits
    ensures old(d.truncated) ==> d.truncated
    ensures !d.truncated ==> IsRoundTiesToEven(fmt, old(d.Value()), answer)
    ensures IsEncoding(fmt, answer)
    ensures !old(d.truncated) && WithinBudget(old(d.numDigits), old(d.decimalPoint)) ==> !d.truncated
  {
    hide Pow, Shifted, Val, Ten, Two, IsRoundTiesToEven, Leads, Multiple;
    ghost var places := d.numDigits - d.decimalPoint;
    ghost var x := d.Value();
    if d.numDigits == 0 {
      answer := ZERO;
      ZeroEncodes(fmt);
      NoDigits(d.Digits(), d.decimalPoint);
      TinyIsZero(fmt, x);
      return;
    }
    ValueLeads(d);
    LeadsRange(x, d.decimalPoint, d.digits[0]);
    if d.decimalPoint < -324 {
      answer := ZERO;
      ZeroEncodes(fmt);
      TenMono(d.decimalPoint, -325);
      TenPos(-325);
      TinyIsZero(fmt, x);
      return;
    } else if d.decimalPoint >= 310 {
      answer := Infinity(fmt);
      TenMono(309, d.decimalPoint - 1);
      HugeTen();
      HugeIsInfinite(fmt, x);
      return;
    }
    ShiftedZero(x);
    ValMultiple(d.Digits(), d.decimalPoint);
    var exp2 := ShiftDown(d, x, places);
    exp2 := ShiftUp(d, exp2, x, places);
    exp2 := exp2 - 1;
    exp2 := ShiftSubnormal(fmt, d, exp2, x, places);
    if exp2 - fmt.minimumExponent >= fmt.infinitePower {
      answer := Infinity(fmt);
      ValueLeads(d);
      if !d.truncated {
        HalfIsHuge(fmt, d.Value(), d.digits[0], exp2, x);
        HugeIsInfinite(fmt, x);
      }
      return;
    }
    answer := RoundAndPack(fmt, d, exp2, x, places);
  }

  lemma ZeroEncodes(fmt: BinaryFormat)
    requires IsFormat(fmt)
    ensures IsEncoding(fmt, ZERO)
  {
    PowPos(2, fmt.explicitBits);
  }

  lemma NoDigits(s: seq<int>, point: int)
    requires s == []
    ensures Val(s, point) == 0.0
  {
  }

  /** 2^93 is just below 10^28. */
  lemma {:induction false} TwoTenRatio(k: nat)
    ensures Pow(2, 93 * k) <= Pow(10, 28 * k)
  {
    hide Pow;
    if k == 0 {
      PowZero(2);
      PowZero(10);
    } else {
      TwoTenRatio(k - 1);
      PowAdd(2, 93 * (k - 1), 93);
      PowAdd(10, 28 * (k - 1), 28);
      PowPos(2, 93 * (k - 1));
      RatioBase();
      ProductAtMostInt(Pow(2, 93 * (k - 1)), Pow(2, 93), Pow(10, 28 * (k - 1)), Pow(10, 28));
    }
  }

  lemma ProductAtMostInt(a: int, b: int, c: int, d: int)
    requires 0 <= a <= c && b <= d && 0 <= b
    ensures a * b <= c * d
  {
    MulMono(a, b, d);
    MulMono(d, a, c);
  }

  lemma TenToTwentyEight()
    ensures Pow(10, 28) == 10000000000000000000000000000
  {
    assert Pow(10, 7) == 10000000;
    hide Pow;
    PowAdd(10, 7, 7);
    PowAdd(10, 14, 14);
  }

  lemma RatioBase()
    ensures Pow(2, 93) <= Pow(10, 28) && Pow(2, 93) >= 0
  {
    assert Pow(2, 10) == 1024 && Pow(2, 11) == 2048;
    hide Pow;
    TenToTwentyEight();
    PowAdd(2, 10, 10);
    PowAdd(2, 20, 11);
    assert Pow(2, 31) == 2147483648;
    PowAdd(2, 31, 31);
    PowAdd(2, 62, 31);
  }

  /** The decimal cut-offs against the binary range. */
  lemma HugeTen()
    ensures Two(1024) <= Ten(309) && Ten(-325) <= Two(-1076)
  {
    hide Pow, Ten, Two;
    PowersCompare();
    TwoIsPow(1024);
    TenIsPow(309);
    TwoIsPow(1076);
    TenIsPow(325);
    TwoAdd(1076, -1076);
    TenAdd(325, -325);
    TwoZero();
    TenZero();
    TwoPos(-1076);
    TenPos(-325);
    Reciprocals(Two(1076), Ten(325), Two(-1076), Ten(-325));
  }

  lemma PowersCompare()
    ensures Pow(2, 1024) <= Pow(10, 309) && Pow(2, 1076) <= Pow(10, 325)
  {
    hide Pow;
    TwoTenRatio(11);
    PowAdd(2, 1023, 1);
    PowAdd(10, 308, 1);
    PowStep(2, 0);
    PowStep(10, 0);
    PowZero(2);
    PowZero(10);
    PowPos(2, 1023);
    ProductAtMostInt(Pow(2, 1023), Pow(2, 1), Pow(10, 308), Pow(10, 1));
    TwoByGrowth(53);
    PowMono(10, Packed(53) / 0x800, 17);
    PowPos(2, 53);
    PowAdd(2, 1023, 53);
    PowAdd(10, 308, 17);
    ProductAtMostInt(Pow(2, 1023), Pow(2, 53), Pow(10, 308), Pow(10, 17));
  }

  lemma Reciprocals(a: real, b: real, a': real, b': real)
    requires a <= b && a * a' == 1.0 && b * b' == 1.0 && a' > 0.0 && b' > 0.0
    ensures b' <= a'
  {
    if b' > a' {
      RMulMonoStrict(b', a', b');
      if a <= 0.0 {
        RMulMono(a', a, 0.0);
      }
      RMulMonoStrict(a, a', b');
      RMulMono(b', a, b);
    }
  }

  lemma TinyIsZero(fmt: BinaryFormat, x: real)
    requires IsFormat(fmt) && 0.0 <= x && (x == 0.0 || x < Ten(-325))
    ensures IsRoundTiesToEven(fmt, x, ZERO)
  {
    hide Pow, Ten, Two, NearestInteger, IsRoundTiesToEven, Shifted;
    var q := MinQuantum(fmt);
    var y := Shifted(x, -q);
    ShiftedBack(x, q);
    HugeTen();
    TwoMono(-1076, q - 2);
    PowPos(2, fmt.explicitBits);
    PowStep(2, fmt.explicitBits);
    TinySignificand(x, q);
    SmallRoundsToZero(y, false);
    SmallMod(0, Pow(2, fmt.explicitBits));
    PackCorrect(fmt, x, y, q, 0, ZERO);
  }

  lemma TinySignificand(x: real, q: int)
    requires 0.0 <= x && (x == 0.0 || x < Two(q - 2))
    ensures 0.0 <= Shifted(x, -q) < 0.5
  {
    hide Two;
    TwoAdd(q - 2, -q);
    TwoPos(q - 2);
    TwoPos(-q);
    TwoQuarter();
    RMulMono(Two(-q), 0.0, x);
    if x > 0.0 {
      RMulMonoStrict(Two(-q), x, Two(q - 2));
    }
  }

  lemma TwoQuarter()
    ensures Two(-2) == 0.25
  {
  }

  lemma HugeIsInfinite(fmt: BinaryFormat, x: real)
    requires IsFormat(fmt) && (x >= Two(1024) || x >= Two(fmt.minimumExponent + fmt.infinitePower))
    ensures IsRoundTiesToEven(fmt, x, Infinity(fmt))
  {
    hide Pow, Two;
    var size, q := fmt.explicitBits + 1, MaxQuantum(fmt);
    TwoMono(fmt.minimumExponent + fmt.infinitePower, 1024);
    TwoIsPow(size);
    TwoAdd(size, q);
    TwoPos(q);
    RMulMono(Two(q), Pow(2, size) as real - 0.5, Two(size));
  }

  lemma HalfIsHuge(fmt: BinaryFormat, v: real, l: int, exp2: int, x: real)
    requires IsFormat(fmt) && Leads(v, 0, l) && l >= 5 && x == Shifted(v, exp2 + 1)
    requires exp2 >= fmt.minimumExponent + fmt.infinitePower
    ensures x >= Two(fmt.minimumExponent + fmt.infinitePower)
  {
    LeadHalf(v, l);
    hide Leads, Two;
    TwoStep(exp2);
    TwoMono(fmt.minimumExponent + fmt.infinitePower, exp2);
    TwoPos(exp2 + 1);
    RMulMono(Two(exp2 + 1), 0.5, v);
  }

  /** Half the smallest positive number: what is not above it rounds to zero. */
  ghost function HalfSmallest(fmt: BinaryFormat): real {
    Shifted(0.5, MinQuantum(fmt))
  }

  /** Exactly the numbers up to half the smallest positive one round to zero. */
  lemma ZeroRounds(fmt: BinaryFormat, x: real)
    requires IsFormat(fmt) && x >= 0.0
    ensures IsRoundTiesToEven(fmt, x, ZERO) <==> x <= HalfSmallest(fmt)
  {
    hide Pow, Two, NearestInteger, IsRoundTiesToEven, OverflowBound;
    if x <= HalfSmallest(fmt) {
      SmallIsZero(fmt, x);
    } else if IsRoundTiesToEven(fmt, x, ZERO) {
      ZeroAtMost(fmt, x);
    }
  }

  lemma ZeroAtMost(fmt: BinaryFormat, x: real)
    requires IsFormat(fmt) && x >= 0.0 && IsRoundTiesToEven(fmt, x, ZERO)
    ensures x <= HalfSmallest(fmt)
  {
    hide Pow, Two, NearestInteger, IsRoundTiesToEven, OverflowBound;
    NotInfinite(fmt, x, ZERO);
    OneRepresentable(fmt);
    TwoPos(MinQuantum(fmt));
    assert Beats(x, Decode(fmt, ZERO), true, 1, MinQuantum(fmt));
    BeatsOne(x, Two(MinQuantum(fmt)));
  }

  lemma NotInfinite(fmt: BinaryFormat, x: real, am: AdjustedMantissa)
    requires IsFormat(fmt) && IsRoundTiesToEven(fmt, x, am)
    ensures am != Infinity(fmt) <==> x < OverflowBound(fmt)
    ensures am == ZERO ==>
      forall m, q :: Representable(fmt, m, q) ==> Beats(x, Decode(fmt, ZERO), true, m, q)
  {
    hide OverflowBound, Beats, Decode, Representable;
  }

  lemma OneRepresentable(fmt: BinaryFormat)
    requires IsFormat(fmt)
    ensures Representable(fmt, 1, MinQuantum(fmt)) && Decode(fmt, ZERO) == 0.0
    ensures Shifted(1.0, MinQuantum(fmt)) == Two(MinQuantum(fmt)) && HalfSmallest(fmt) == 0.5 * Two(MinQuantum(fmt))
  {
    PowStep(2, fmt.explicitBits);
    PowPos(2, fmt.explicitBits);
    hide Pow, Two;
  }

  lemma BeatsOne(x: real, w: real)
    requires x >= 0.0 && w > 0.0 && Abs(x - 0.0) <= Abs(x - w)
    ensures x <= 0.5 * w
  {
  }

  lemma SmallIsZero(fmt: BinaryFormat, x: real)
    requires IsFormat(fmt) && 0.0 <= x <= HalfSmallest(fmt)
    ensures IsRoundTiesToEven(fmt, x, ZERO)
  {
    hide Pow, Two, NearestInteger, IsRoundTiesToEven, Shifted;
    var q := MinQuantum(fmt);
    var y := Shifted(x, -q);
    ShiftedBack(x, q);
    ShiftedAdd(0.5, q, -q);
    ShiftedZero(0.5);
    ShiftedMono(x, Shifted(0.5, q), -q);
    ShiftedMono(0.0, x, -q);
    ShiftedNil(-q);
    NearZero(y);
    PowPos(2, fmt.explicitBits);
    PowStep(2, fmt.explicitBits);
    SmallMod(0, Pow(2, fmt.explicitBits));
    PackCorrect(fmt, x, y, q, 0, ZERO);
  }

  lemma ShiftedNil(q: int)
    ensures Shifted(0.0, q) == 0.0
  {
  }

  lemma NearZero(y: real)
    requires 0.0 <= y <= 0.5
    ensures NearestInteger(y, false) == 0
  {
  }
}
