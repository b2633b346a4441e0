/** The loops and recursions of `UFixedBigInt`: leading zeroes, division, multiplication, square root. */
module UFixedBigIntAlgorithms {
  import opened Powers
  import opened UFixedBigInts

  // ---- Leading zeroes ----

  /** Bits up to and with the highest set one. */
  function BitLength(v: nat): nat {
    if v == 0 then 0 else 1 + BitLength(v / 2)
  }

  lemma {:induction false} BitLengthBounds(v: nat)
    ensures v < Pow2(BitLength(v))
    ensures v > 0 ==> Pow2(BitLength(v) - 1) <= v
  {
    if v > 0 {
      BitLengthBounds(v / 2);
    }
  }

  lemma Pow2Reflects(a: nat, b: nat)
    requires Pow2(a) < Pow2(b)
    ensures a < b
  {
    if a >= b {
      Pow2Monotone(b, a);
    }
  }

  lemma BitLengthOfWord(v: nat)
    requires v < Base(0)
    ensures BitLength(v) <= 64
  {
    BitLengthBounds(v);
    if v > 0 {
      Pow2Reflects(BitLength(v) - 1, 64);
    }
  }

  /** `clz`. The builtin for a word leaves its answer for zero undefined: it is the parameter `undef`. */
  function Clz(x: UInt, d: nat, undef: nat): (c: nat)
    requires IsOf(x, d) && undef <= 64
    ensures c <= Bits(d)
  {
    if d == 0 then
      BitLengthOfWord(x.v);
      if x.v == 0 then undef else 64 - BitLength(x.v)
    else if !IsZero(x.high) then Clz(x.high, d - 1, undef)
    else Bits(d - 1) + Clz(x.low, d - 1, undef)
  }

  lemma HighLimbRange(l: nat, h: nat, n: nat, k: nat)
    requires l < Pow2(n) && k > 0 && Pow2(k - 1) <= h < Pow2(k)
    ensures Pow2(n + k - 1) <= l + Pow2(n) * h < Pow2(n + k)
  {
    hide *;
    Pow2Split(n, k, n + k);
    Pow2Split(n, k - 1, n + k - 1);
    PairBoundBelow(l, h, Pow2(n), Pow2(k));
    MulMonotone(Pow2(n), Pow2(k - 1), h);
  }

  /** `clz` locates the highest set bit of a number that has one. */
  lemma {:induction false} ClzVal(x: UInt, d: nat, undef: nat)
    requires IsOf(x, d) && undef <= 64
    ensures !IsZero(x) ==> var c := Clz(x, d, undef);
      c < Bits(d) && Pow2(Bits(d) - c - 1) <= Val(x, d) < Pow2(Bits(d) - c)
  {
    hide Pow2;
    if d == 0 {
      BitLengthOfWord(x.v);
      BitLengthBounds(x.v);
    } else {
      ClzVal(x.low, d - 1, undef);
      ClzVal(x.high, d - 1, undef);
      ValBound(x.low, d - 1);
      BaseIs(d - 1);
      if !IsZero(x.high) {
        HighLimbRange(Val(x.low, d - 1), Val(x.high, d - 1), Bits(d - 1), Bits(d - 1) - Clz(x.high, d - 1, undef));
      } else {
        IsZeroVal(x.high, d - 1);
      }
    }
  }

  // ---- Single bits ----

  lemma NextBit(x: nat, i: nat)
    ensures Div(x, Pow2(i)) == 2 * Div(x, Pow2(i + 1)) + Mod(Div(x, Pow2(i)), 2)
  {
    hide Div, Mod;
    var p := Pow2(i);
    assert Pow2(i + 1) == 2 * p;
    hide Pow2;
    var q, r := DivMod(x, p);
    var q', r' := DivMod(q, 2);
    MulAssociates(p, 2, q');
    PairBoundBelow(r, r', p, 2);
    Distribute(p, 2 * q', r');
    DivModIs(x, 2 * p, q', r + p * r');
  }

  lemma DoubledFits(r: nat, n: nat)
    requires n > 0 && 2 * r < Pow2(n)
    ensures LeftShifted(r, 1, n) == 2 * r
  {
    hide Div, Mod;
    assert Pow2(n) == 2 * Pow2(n - 1);
    DivModIs(r, Pow2(n - 1), 0, r);
    assert Pow2(1) == 2;
  }

  /** `remainder <<= 1u; remainder |= bit` loses nothing when the result fits. */
  lemma ShiftedIn(x: UInt, bit: nat, d: nat)
    requires d > 0 && IsOf(x, d) && bit < 2 && 2 * Val(x, d) + bit < Base(d)
    ensures bit < Base(0)
    ensures Val(OrSmall(Shl(x, 1, d), bit, d), d) == 2 * Val(x, d) + bit
  {
    hide Shl, Or, OrSmall, Val, Div, BitOr, LeftShifted;
    WordBaseLarge();
    var r := Val(x, d);
    BaseIs(d);
    DoubledFits(r, Bits(d));
    ShlVal(x, 1, d);
    OrSmallVal(Shl(x, 1, d), bit, d);
    assert Pow2(1) == 2;
    BitOrDisjoint(r, bit, 1);
  }

  /** `(*this >> i) & 1u` */
  lemma BitAt(x: UInt, i: nat, d: nat)
    requires d > 0 && IsOf(x, d)
    ensures LowBit(Shr(x, i, d), d) == Mod(Div(Val(x, d), Pow2(i)), 2)
  {
    hide Shr, Val, Pow2, Div;
    ShrVal(x, i, d);
    LowBitVal(Shr(x, i, d), d);
  }

  lemma OneShifted(i: nat, n: nat)
    requires i < n
    ensures LeftShifted(1, i, n) == Pow2(i)
  {
    hide Div, Mod;
    assert Pow2(n - i) == 2 * Pow2(n - i - 1);
    DivModIs(1, Pow2(n - i), 0, 1);
  }

  /** `quotient |= R { 1u } << i` adds a bit below all those set. */
  lemma BitSet(q: UInt, above: nat, i: nat, d: nat)
    requires d > 0 && IsOf(q, d) && i < Bits(d)
    requires Base(0) > 1 && Val(q, d) == Pow2(i + 1) * above
    ensures Val(Or(q, Shl(Small(1, d), i, d), d), d) == Pow2(i) * (2 * above + 1)
  {
    hide Shl, Or, Val, Div, BitOr, LeftShifted;
    SmallVal(1, d);
    ShlVal(Small(1, d), i, d);
    OneShifted(i, Bits(d));
    OrVal(q, Shl(Small(1, d), i, d), d);
    assert Pow2(i) < Pow2(i + 1);
    BitOrDisjoint(above, Pow2(i), i + 1);
    var p := Pow2(i);
    MulAssociates(p, 2, above);
    Distribute(p, 2 * above, 1);
  }

  // ---- Division ----

  /** What `i` steps from the end has been divided so far: the high bits of the dividend. */
  ghost predicate Divided(x: nat, m: nat, q: nat, r: nat, quotient: nat, i: nat) {
    r < m && Div(x, Pow2(i)) == q * m + r && quotient == Pow2(i) * q
  }

  lemma DividedStep(x: nat, m: nat, q: nat, r: nat, i: nat, bit: nat)
    requires r < m && Div(x, Pow2(i + 1)) == q * m + r && bit == Mod(Div(x, Pow2(i)), 2)
    ensures 2 * r + bit <= Div(x, Pow2(i)) <= x
    ensures 2 * r + bit < m ==> Div(x, Pow2(i)) == (2 * q) * m + (2 * r + bit)
    ensures 2 * r + bit >= m ==>
      2 * r + bit - m < m && Div(x, Pow2(i)) == (2 * q + 1) * m + (2 * r + bit - m)
  {
    hide Div, Pow2;
    NextBit(x, i);
    QuotientBound(x, Pow2(i));
    assert bit < 2;
    MulAssociates(2, q, m);
    Distribute(m, 2 * q, 1);
    assert q * m >= 0;
  }

  lemma DivideNothing(x: nat, m: nat, n: nat)
    requires m > 0 && x < Pow2(n)
    ensures Divided(x, m, 0, 0, 0, n)
  {
    hide Div;
    QuotientVanishes(x, n, n);
  }

  /** The two numbers a step of the division loop computes. */
  lemma DivideStep(x: UInt, divisor: UInt, quotient: UInt, remainder: UInt, q: nat, i: nat, d: nat)
      returns (q': nat, shifted: UInt)
    requires d > 0 && IsOf(x, d) && IsOf(divisor, d) && IsOf(quotient, d) && IsOf(remainder, d)
    requires i < Bits(d) && Base(0) > 1
    requires Divided(Val(x, d), Val(divisor, d), q, Val(remainder, d), Val(quotient, d), i + 1)
    ensures LowBit(Shr(x, i, d), d) < Base(0)
    ensures shifted == OrSmall(Shl(remainder, 1, d), LowBit(Shr(x, i, d), d), d)
    ensures !AtLeast(shifted, divisor, d) ==>
      Divided(Val(x, d), Val(divisor, d), q', Val(shifted, d), Val(quotient, d), i)
    ensures AtLeast(shifted, divisor, d) ==>
      Divided(Val(x, d), Val(divisor, d), q', Val(Minus(shifted, divisor, d), d),
              Val(Or(quotient, Shl(Small(1, d), i, d), d), d), i)
  {
    hide Div, Pow2, Shl, Shr, Or, OrSmall, Val, Minus, AtLeast, Base, LowBit;
    var bit := LowBit(Shr(x, i, d), d);
    var r, m := Val(remainder, d), Val(divisor, d);
    BitAt(x, i, d);
    DividedStep(Val(x, d), m, q, r, i, bit);
    ValBound(x, d);
    ShiftedIn(remainder, bit, d);
    shifted := OrSmall(Shl(remainder, 1, d), bit, d);
    Comparisons(shifted, divisor, d);
    if AtLeast(shifted, divisor, d) {
      q' := 2 * q + 1;
      MinusExact(shifted, divisor, d);
      BitSet(quotient, q, i, d);
    } else {
      q' := 2 * q;
      QuotientGrows(i, q);
    }
  }

  lemma QuotientGrows(i: nat, q: nat)
    ensures Pow2(i + 1) * q == Pow2(i) * (2 * q)
  {
    MulAssociates(Pow2(i), 2, q);
  }

  lemma DividedAll(x: nat, m: nat, q: nat, r: nat, quotient: nat)
    requires Divided(x, m, q, r, quotient, 0)
    ensures x == quotient * m + r && r < m
  {
    RightByZero(x);
  }

  /** `div_mod` by a divisor of the same width. */
  method DivideWithRemainder(x: UInt, divisor: UInt, d: nat, undef: nat) returns (quotient: UInt, remainder: UInt)
    requires undef <= 64
    requires d > 0 && IsOf(x, d) && IsOf(divisor, d) && !IsZero(divisor)
    ensures IsOf(quotient, d) && IsOf(remainder, d)
    ensures Val(x, d) == Val(quotient, d) * Val(divisor, d) + Val(remainder, d)
    ensures Val(remainder, d) < Val(divisor, d)
  {
    hide Div, Pow2, Shl, Shr, Or, OrSmall, Val, Minus, AtLeast, Base, LowBit, Less, Clz, IsZero, Divided, Small, Zero;
    WordBaseLarge();
    ZeroVal(d);
    SmallVal(1, d);
    IsZeroVal(divisor, d);
    Comparisons(x, divisor, d);
    if Less(x, divisor, d) {
      return Zero(d), x;
    }
    if x == divisor {
      return Small(1, d), Zero(d);
    }
    if divisor == Small(1, d) {
      return x, Zero(d);
    }
    remainder := Zero(d);
    quotient := Zero(d);
    IsZeroVal(x, d);
    ClzVal(x, d, undef);
    var i: int := Bits(d) - Clz(x, d, undef) - 1;
    DivideNothing(Val(x, d), Val(divisor, d), i + 1);
    ghost var q := 0;
    while i >= 0
      invariant -1 <= i < Bits(d) && IsOf(quotient, d) && IsOf(remainder, d)
      invariant Divided(Val(x, d), Val(divisor, d), q, Val(remainder, d), Val(quotient, d), i + 1)
    {
      ghost var shifted;
      q, shifted := DivideStep(x, divisor, quotient, remainder, q, i, d);
      remainder := Shl(remainder, 1, d);
      remainder := OrSmall(remainder, LowBit(Shr(x, i, d), d), d);
      if AtLeast(remainder, divisor, d) {
        remainder := Minus(remainder, divisor, d);
        quotient := Or(quotient, Shl(Small(1, d), i, d), d);
      }
      i := i - 1;
    }
    DividedAll(Val(x, d), Val(divisor, d), q, Val(remainder, d), Val(quotient, d));
  }

  // ---- Multiplication ----

  /** `operator+` of equal widths. */
  function Plus(x: UInt, y: UInt, d: nat): (r: UInt)
    requires d > 0 && IsOf(x, d) && IsOf(y, d)
    ensures IsOf(r, d)
  {
    AddC(x, y, false, d).0
  }

  lemma PlusVal(x: UInt, y: UInt, d: nat) returns (lost: nat)
    requires d > 0 && IsOf(x, d) && IsOf(y, d)
    ensures Val(Plus(x, y, d), d) + Base(d) * lost == Val(x, d) + Val(y, d)
    ensures lost == Bit(AddC(x, y, false, d).1)
  {
    hide Base, AddC, Val;
    AddCExact(x, y, false, d);
    lost := Bit(AddC(x, y, false, d).1);
  }

  lemma DoubledVal(x: UInt, d: nat) returns (lost: nat)
    requires d > 0 && IsOf(x, d)
    ensures Val(Shl(x, 1, d), d) + Base(d) * lost == 2 * Val(x, d)
  {
    hide Val, Shl, Div, Mod;
    ShlVal(x, 1, d);
    BaseIs(d);
    var m := Pow2(Bits(d) - 1);
    assert Pow2(1) == 2 && Pow2(Bits(d)) == 2 * m;
    var q, r := DivMod(Val(x, d), m);
    MulAssociates(2, m, q);
    lost := q;
  }

  lemma HalvedVal(x: UInt, d: nat)
    requires d > 0 && IsOf(x, d)
    ensures Val(x, d) == 2 * Val(Shr(x, 1, d), d) + LowBit(x, d)
  {
    hide Val, Shr, LowBit, Div, Mod;
    ShrVal(x, 1, d);
    LowBitVal(x, d);
    assert Pow2(1) == 2;
    var q, r := DivMod(Val(x, d), 2);
    assert r == Val(x, d) % 2 by {
      assert Mod(Val(x, d), 2) == Val(x, d) % 2 by {
        DivModIs(Val(x, d), 2, Val(x, d) / 2, Val(x, d) % 2);
      }
    }
  }

  /** How much of the product is in `res`, how much is still to come, and how often it went past the end. */
  ghost predicate Multiplied(product: nat, res: nat, that: nat, other: nat, lost: nat, base: nat) {
    product == res + that * other + base * lost
  }

  lemma MultiplyStep(product: nat, res: nat, that: nat, other: nat, lost: nat, base: nat,
                     res': nat, that': nat, half: nat, bit: nat, c: nat, c': nat)
    requires Multiplied(product, res, that, other, lost, base) && other == 2 * half + bit && bit < 2
    requires if bit == 1 then res' + base * c == res + that else res' == res && c == 0
    requires that' + base * c' == 2 * that
    ensures c' * half >= 0 && Multiplied(product, res', that', half, lost + c + c' * half, base)
  {
    Distribute(that, 2 * half, bit);
    MulAssociates(that, 2, half);
    assert that * (2 * half) == (2 * that) * half;
    Distribute(half, that', base * c');
    MulAssociates(base, c', half);
    Distribute(base, lost, c);
    Distribute(base, lost + c, c' * half);
  }

  lemma MultiplyNothing(x: nat, y: nat, base: nat)
    ensures Multiplied(x * y, 0, x, y, 0, base)
  {
  }

  lemma MultipliedAll(product: nat, res: nat, that: nat, lost: nat, base: nat)
    requires Multiplied(product, res, that, 0, lost, base) && res < base
    ensures res == Mod(product, base)
  {
    DivModIs(product, base, lost, res);
  }

  /** `operator*` of equal widths: the product, in as many bits as there are. */
  method Multiply(x: UInt, y: UInt, d: nat) returns (res: UInt)
    requires d > 0 && IsOf(x, d) && IsOf(y, d)
    ensures IsOf(res, d) && Val(res, d) == Mod(Val(x, d) * Val(y, d), Base(d))
  {
    hide Shl, Shr, Val, Plus, Base, LowBit, IsZero, Zero, Mod, Div, Multiplied;
    res := Zero(d);
    var that, other := x, y;
    ghost var lost: nat := 0;
    ZeroVal(d);
    MultiplyNothing(Val(x, d), Val(y, d), Base(d));
    IsZeroVal(other, d);
    while !IsZero(other)
      invariant IsOf(res, d) && IsOf(that, d) && IsOf(other, d) && (IsZero(other) <==> Val(other, d) == 0)
      invariant Multiplied(Val(x, d) * Val(y, d), Val(res, d), Val(that, d), Val(other, d), lost, Base(d))
      decreases Val(other, d)
    {
      ghost var was, wasRes := other, res;
      ghost var c := 0;
      if LowBit(other, d) == 1 {
        c := PlusVal(res, that, d);
        res := Plus(res, that, d);
      }

      ghost var c' := DoubledVal(that, d);
      HalvedVal(other, d);
      MultiplyStep(Val(x, d) * Val(y, d), Val(wasRes, d), Val(that, d), Val(other, d), lost, Base(d),
                   Val(res, d), Val(Shl(that, 1, d), d), Val(Shr(other, 1, d), d), LowBit(other, d), c, c');
      lost := lost + c + c' * Val(Shr(other, 1, d), d);
      that := Shl(that, 1, d);
      other := Shr(other, 1, d);
      IsZeroVal(other, d);
    }
    ValBound(res, d);
    MultipliedAll(Val(x, d) * Val(y, d), Val(res, d), Val(that, d), lost, Base(d));
  }

  // ---- Wide multiplication ----

  /** A 64 by 64 bit product by the compiler's 128-bit type. */
  function WordProductNative(a: nat, b: nat): (r: (nat, nat))
    requires a < Base(0) && b < Base(0)
    ensures r.0 < Base(0) && r.1 < Base(0) && r.0 + Base(0) * r.1 == a * b
  {
    WordProductParts(a, b);
    (Mod(a * b, Base(0)), Div(a * b, Base(0)))
  }

  lemma ProductBound(a: nat, b: nat, m: nat, n: nat)
    requires a < m && b < n
    ensures a * b < m * n && a * b >= 0
  {
    ScaleBound(a, m, b);
    MulStep(m, b, n);
    assert a * b <= m * b by {
      Distribute(b, a, m - a);
    }
  }

  lemma WordProductParts(a: nat, b: nat)
    requires a < Base(0) && b < Base(0)
    ensures Mod(a * b, Base(0)) < Base(0) && Div(a * b, Base(0)) < Base(0)
    ensures Mod(a * b, Base(0)) + Base(0) * Div(a * b, Base(0)) == a * b
  {
    hide Base, Div, Mod;
    var q, r := DivMod(a * b, Base(0));
    ProductBound(a, b, Base(0), Base(0));
    if q >= Base(0) {
      MulMonotone(Base(0), Base(0), q);
    }
  }

  /** 2 to the power 32, half a word. */
  function HalfBase(): (h: nat)
    ensures h > 0 && h * h == Base(0)
  {
    Pow2Sum(32, 32);
    Pow2(32)
  }

  /** A double word holding a word shifted left by half a word. */
  function HalfShifted(p: nat): (r: UInt)
    requires p < Base(0)
    ensures IsOf(r, 1)
  {
    Big(Word(ShlWord(p, 32)), Word(ShrWord(p, 32)))
  }

  lemma HalfShiftedVal(p: nat)
    requires p < Base(0)
    ensures Val(HalfShifted(p), 1) == HalfBase() * p
  {
    hide Div, Mod, Pow2;
    LeftShiftedIs(p, 32, 64, 32);
    var q, r := DivMod(p, Pow2(32));
    var h := HalfBase();
    MulAssociates(h, h, q);
    Distribute(h, h * q, r);
  }

  /** `(u64)a * b` of two half words. */
  function HalfProduct(a: nat, b: nat): (p: nat)
    requires a < HalfBase() && b < HalfBase()
    ensures p < Base(0) && p == a * b
  {
    ProductBound(a, b, HalfBase(), HalfBase());
    a * b
  }

  /** `(u32)a` */
  function LowHalf(a: nat): (l: nat)
    ensures l < HalfBase()
  {
    Mod(a, HalfBase())
  }

  lemma HighHalfBound(a: nat)
    requires a < Base(0)
    ensures ShrWord(a, 32) < HalfBase()
  {
    hide Pow2, Div;
    BaseIs(0);
    QuotientBelow(a, 64, 32);
  }

  /** `(u32)(a >> 32)` */
  function HighHalf(a: nat): (h: nat)
    requires a < Base(0)
    ensures h < HalfBase()
  {
    HighHalfBound(a);
    ShrWord(a, 32)
  }

  lemma HalfWord(a: nat)
    requires a < Base(0)
    ensures a == LowHalf(a) + HalfBase() * HighHalf(a)
  {
    hide Div, Mod, Pow2;
    var _, _ := DivMod(a, Pow2(32));
  }

  /** The four products of half words, each in its place within a double word. */
  function HalfProducts(a: nat, b: nat): (r: (UInt, UInt, UInt, UInt))
    requires a < Base(0) && b < Base(0)
    ensures IsOf(r.0, 1) && IsOf(r.1, 1) && IsOf(r.2, 1) && IsOf(r.3, 1)
  {
    (Big(Word(HalfProduct(LowHalf(a), LowHalf(b))), Zero(0)), HalfShifted(HalfProduct(LowHalf(a), HighHalf(b))),
     HalfShifted(HalfProduct(HighHalf(a), LowHalf(b))), Big(Zero(0), Word(HalfProduct(HighHalf(a), HighHalf(b)))))
  }

  /** `ll + lh + hl + hh` */
  function SumOfFour(p: (UInt, UInt, UInt, UInt), d: nat): (r: UInt)
    requires d > 0 && IsOf(p.0, d) && IsOf(p.1, d) && IsOf(p.2, d) && IsOf(p.3, d)
    ensures IsOf(r, d)
  {
    Plus(Plus(Plus(p.0, p.1, d), p.2, d), p.3, d)
  }

  /** None of the three additions carries out. */
  ghost predicate NothingLost(p: (UInt, UInt, UInt, UInt), d: nat)
    requires d > 0 && IsOf(p.0, d) && IsOf(p.1, d) && IsOf(p.2, d) && IsOf(p.3, d)
  {
    && !AddC(p.0, p.1, false, d).1
    && !AddC(Plus(p.0, p.1, d), p.2, false, d).1
    && !AddC(Plus(Plus(p.0, p.1, d), p.2, d), p.3, false, d).1
  }

  lemma PlusFits(x: UInt, y: UInt, d: nat)
    requires d > 0 && IsOf(x, d) && IsOf(y, d) && Val(x, d) + Val(y, d) < Base(d)
    ensures Val(Plus(x, y, d), d) == Val(x, d) + Val(y, d) && !AddC(x, y, false, d).1
  {
    hide Val, Plus, AddC, Base;
    var lost := PlusVal(x, y, d);
  }

  lemma SumOfFourVal(p: (UInt, UInt, UInt, UInt), d: nat)
    requires d > 0 && IsOf(p.0, d) && IsOf(p.1, d) && IsOf(p.2, d) && IsOf(p.3, d)
    requires Val(p.0, d) + Val(p.1, d) + Val(p.2, d) + Val(p.3, d) < Base(d)
    ensures Val(SumOfFour(p, d), d) == Val(p.0, d) + Val(p.1, d) + Val(p.2, d) + Val(p.3, d)
    ensures NothingLost(p, d)
  {
    hide Val, Plus, AddC, Base;
    PlusFits(p.0, p.1, d);
    PlusFits(Plus(p.0, p.1, d), p.2, d);
    PlusFits(Plus(Plus(p.0, p.1, d), p.2, d), p.3, d);
  }

  lemma SchoolbookParts(x: nat, y: nat, xl: nat, xh: nat, yl: nat, yh: nat, b: nat)
    requires x == xl + b * xh && y == yl + b * yh
    ensures x * y == xl * yl + b * (xl * yh) + b * (xh * yl) + (b * b) * (xh * yh)
  {
    Distribute(x, yl, b * yh);
    Distribute(yl, xl, b * xh);
    MulAssociates(b, xh, yl);
    Distribute(b * yh, xl, b * xh);
    Swap3(xl, b, yh);
    Regroup(b, xh, b, yh);
  }

  lemma Regroup(a: int, b: int, c: int, e: int)
    ensures (a * b) * (c * e) == (a * c) * (b * e)
  {
    MulAssociates(a, b, c * e);
    Swap3(b, c, e);
    MulAssociates(a, c, b * e);
  }

  lemma WordPairVal(l: nat, h: nat)
    requires l < Base(0) && h < Base(0)
    ensures Val(Big(Word(l), Zero(0)), 1) == l && Val(Big(Zero(0), Word(h)), 1) == Base(0) * h
  {
    hide Base;
    PairVal(Word(l), Zero(0), 1);
    PairVal(Zero(0), Word(h), 1);
  }

  lemma HalfProductsVal(a: nat, b: nat)
    requires a < Base(0) && b < Base(0)
    ensures var p := HalfProducts(a, b);
      Val(p.0, 1) + Val(p.1, 1) + Val(p.2, 1) + Val(p.3, 1) == a * b
  {
    hide LowHalf, HighHalf, HalfBase, HalfProduct, HalfShifted, Base, Val, Zero;
    HalfWord(a);
    HalfWord(b);
    var al, ah, bl, bh := LowHalf(a), HighHalf(a), LowHalf(b), HighHalf(b);
    WordPairVal(HalfProduct(al, bl), HalfProduct(ah, bh));
    HalfShiftedVal(HalfProduct(al, bh));
    HalfShiftedVal(HalfProduct(ah, bl));
    SchoolbookParts(a, b, al, ah, bl, bh, HalfBase());
  }

  lemma WordProductBound(a: nat, b: nat)
    requires a < Base(0) && b < Base(0)
    ensures a * b < Base(1)
  {
    hide Base;
    BaseSquare(1);
    ProductBound(a, b, Base(0), Base(0));
  }

  /** A 64 by 64 bit product without a 128-bit type. */
  function WordProductPortable(a: nat, b: nat): (r: (nat, nat))
    requires a < Base(0) && b < Base(0)
    ensures r.0 < Base(0) && r.1 < Base(0)
  {
    var sum := SumOfFour(HalfProducts(a, b), 1);
    assert IsOf(sum.low, 0) && IsOf(sum.high, 0);
    (sum.low.v, sum.high.v)
  }

  /** The portable 32-bit path computes what the native one does, and no partial sum wraps around. */
  lemma PortableIsNative(a: nat, b: nat)
    requires a < Base(0) && b < Base(0)
    ensures WordProductPortable(a, b) == WordProductNative(a, b)
    ensures NothingLost(HalfProducts(a, b), 1)
  {
    hide Base, HalfProducts, SumOfFour, NothingLost, Div, Mod;
    HalfProductsVal(a, b);
    WordProductBound(a, b);
    SumOfFourVal(HalfProducts(a, b), 1);
    var sum := SumOfFour(HalfProducts(a, b), 1);
    assert IsOf(sum.low, 0) && IsOf(sum.high, 0);
    assert Val(sum, 1) == sum.low.v + Base(0) * sum.high.v;
    WordBelow(sum.low);
    var r := WordProductNative(a, b);
    PairUnique(sum.low.v, sum.high.v, r.0, r.1, Base(0));
  }

  lemma WordBelow(x: UInt)
    requires IsOf(x, 0)
    ensures x.v < Base(0)
  {
  }

  /** The four products of limbs, each in its place within a number twice as wide. */
  function LimbProducts(x: UInt, y: UInt, d: nat, portable: bool): (r: (UInt, UInt, UInt, UInt))
    requires d > 0 && IsOf(x, d) && IsOf(y, d)
    ensures IsOf(r.0, d + 1) && IsOf(r.1, d + 1) && IsOf(r.2, d + 1) && IsOf(r.3, d + 1)
    decreases d, 0
  {
    var ll := WideMultiply(x.low, y.low, d - 1, portable);
    var lh := WideMultiply(x.low, y.high, d - 1, portable);
    var hl := WideMultiply(x.high, y.low, d - 1, portable);
    var hh := WideMultiply(x.high, y.high, d - 1, portable);
    var z := Zero(d - 1);
    (Big(Big(ll.0, ll.1), Big(z, z)), Big(Big(z, lh.0), Big(lh.1, z)),
     Big(Big(z, hl.0), Big(hl.1, z)), Big(Big(z, z), Big(hh.0, hh.1)))
  }

  /** `wide_multiply`: the low and the high half of the product. */
  function WideMultiply(x: UInt, y: UInt, d: nat, portable: bool): (r: (UInt, UInt))
    requires IsOf(x, d) && IsOf(y, d)
    ensures IsOf(r.0, d) && IsOf(r.1, d)
    decreases d, 1
  {
    if d == 0 then
      var p := if portable then WordProductPortable(x.v, y.v) else WordProductNative(x.v, y.v);
      (Word(p.0), Word(p.1))
    else
      var result := SumOfFour(LimbProducts(x, y, d, portable), d + 1);
      (result.low, result.high)
  }

  ghost function WideVal(r: (UInt, UInt), d: nat): nat
    requires IsOf(r.0, d) && IsOf(r.1, d)
  {
    Val(r.0, d) + Base(d) * Val(r.1, d)
  }

  lemma PlacedVals(l: UInt, h: UInt, d: nat)
    requires d > 0 && IsOf(l, d - 1) && IsOf(h, d - 1)
    ensures var z, v, b := Zero(d - 1), WideVal((l, h), d - 1), Base(d - 1);
      && Val(Big(Big(l, h), Big(z, z)), d + 1) == v
      && Val(Big(Big(z, l), Big(h, z)), d + 1) == b * v
      && Val(Big(Big(z, z), Big(l, h)), d + 1) == (b * b) * v
  {
    hide Zero, Base;
    ZeroVal(d - 1);
    BaseSquare(d);
    var z, b, lv, hv := Zero(d - 1), Base(d - 1), Val(l, d - 1), Val(h, d - 1);
    PairVal(z, z, d);
    PairVal(l, h, d);
    PairVal(z, l, d);
    PairVal(h, z, d);
    PairVal(Big(l, h), Big(z, z), d + 1);
    PairVal(Big(z, l), Big(h, z), d + 1);
    PairVal(Big(z, z), Big(l, h), d + 1);
    hide Val;
    Distribute(b, lv, b * hv);
    MulAssociates(b, b, hv);
  }

  lemma PairVal(l: UInt, h: UInt, d: nat)
    requires d > 0 && IsOf(l, d - 1) && IsOf(h, d - 1)
    ensures IsOf(Big(l, h), d) && Val(Big(l, h), d) == Val(l, d - 1) + Base(d - 1) * Val(h, d - 1)
  {
    hide Base;
  }

  /** `wide_multiply` is exact at every width, on both paths. */
  lemma WideMultiplyExact(x: UInt, y: UInt, d: nat, portable: bool)
    requires IsOf(x, d) && IsOf(y, d)
    ensures WideVal(WideMultiply(x, y, d, portable), d) == Val(x, d) * Val(y, d)
    ensures d > 0 ==> NothingLost(LimbProducts(x, y, d, portable), d + 1)
    decreases d
  {
    hide Base, LimbProducts, SumOfFour, NothingLost, WordProductPortable, WordProductNative;
    if d == 0 {
      PortableIsNative(x.v, y.v);
    } else {
      WideMultiplyExact(x.low, y.low, d - 1, portable);
      WideMultiplyExact(x.low, y.high, d - 1, portable);
      WideMultiplyExact(x.high, y.low, d - 1, portable);
      WideMultiplyExact(x.high, y.high, d - 1, portable);
      LimbProductsVal(x, y, d, portable);
      ValBound(x, d);
      ValBound(y, d);
      BaseSquare(d + 1);
      ProductBound(Val(x, d), Val(y, d), Base(d), Base(d));
      var p := LimbProducts(x, y, d, portable);
      SumOfFourVal(p, d + 1);
      var sum := SumOfFour(p, d + 1);
      PairVal(sum.low, sum.high, d + 1);
    }
  }

  lemma LimbProductsVal(x: UInt, y: UInt, d: nat, portable: bool)
    requires d > 0 && IsOf(x, d) && IsOf(y, d)
    requires WideVal(WideMultiply(x.low, y.low, d - 1, portable), d - 1) == Val(x.low, d - 1) * Val(y.low, d - 1)
    requires WideVal(WideMultiply(x.low, y.high, d - 1, portable), d - 1) == Val(x.low, d - 1) * Val(y.high, d - 1)
    requires WideVal(WideMultiply(x.high, y.low, d - 1, portable), d - 1) == Val(x.high, d - 1) * Val(y.low, d - 1)
    requires WideVal(WideMultiply(x.high, y.high, d - 1, portable), d - 1) == Val(x.high, d - 1) * Val(y.high, d - 1)
    ensures var p := LimbProducts(x, y, d, portable);
      Val(p.0, d + 1) + Val(p.1, d + 1) + Val(p.2, d + 1) + Val(p.3, d + 1) == Val(x, d) * Val(y, d)
  {
    hide Base, WideMultiply, WideVal, Zero;
    var ll, lh := WideMultiply(x.low, y.low, d - 1, portable), WideMultiply(x.low, y.high, d - 1, portable);
    var hl, hh := WideMultiply(x.high, y.low, d - 1, portable), WideMultiply(x.high, y.high, d - 1, portable);
    PlacedVals(ll.0, ll.1, d);
    PlacedVals(lh.0, lh.1, d);
    PlacedVals(hl.0, hl.1, d);
    PlacedVals(hh.0, hh.1, d);
    PairVal(x.low, x.high, d);
    PairVal(y.low, y.high, d);
    hide Val;
    SchoolbookParts(Val(x, d), Val(y, d), Val(x.low, d - 1), Val(x.high, d - 1), Val(y.low, d - 1), Val(y.high, d - 1),
                    Base(d - 1));
  }

  // ---- Square root ----

  /** `r` is the largest number whose square does not exceed `x`. */
  predicate IsRoot(r: nat, x: nat) {
    r * r <= x < (r + 1) * (r + 1)
  }

  lemma RootUnique(r: nat, s: nat, x: nat)
    requires IsRoot(r, x) && IsRoot(s, x)
    ensures r == s
  {
    if r < s {
      SquareGrows(r + 1, s);
    }
    if s < r {
      SquareGrows(s + 1, r);
    }
  }

  lemma SquareGrows(a: nat, b: nat)
    requires a <= b
    ensures a * a <= b * b
  {
    Distribute(a, a, b - a);
    Distribute(b, a, b - a);
    assert a * (b - a) >= 0 && b * (b - a) >= 0;
  }

  lemma EvenBits(n: nat, m: nat, r: nat)
    requires n == 2 * m && m > 0 && 4 * (r * r) < Pow2(n)
    ensures 2 * r + 1 < Pow2(m) && (2 * r + 1) * (2 * r + 1) < Pow2(n)
  {
    Pow2Sum(m, m);
    var h := Pow2(m - 1);
    assert Pow2(m) == 2 * h;
    hide Pow2;
    if r >= h {
      SquareGrows(h, r);
      Regroup(2, h, 2, h);
    }
    SquareBelow(2 * r + 1, 2 * h);
  }

  lemma SquareBelow(a: nat, b: nat)
    requires a < b
    ensures a * a < b * b
  {
    ProductBound(a, a, b, b);
  }

  lemma OddSquare(r: nat)
    ensures (2 * r + 1) * (2 * r + 1) == 4 * (r * r) + 4 * r + 1
    ensures (2 * r) * (2 * r) == 4 * (r * r)
    ensures (2 * r + 2) * (2 * r + 2) == 4 * ((r + 1) * (r + 1))
  {
    Distribute(2 * r + 1, 2 * r, 1);
    Distribute(2 * r, 2 * r, 1);
    Regroup(2, r, 2, r);
    Regroup(2, r + 1, 2, r + 1);
  }

  /** A step from the root of a number without its last two bits to that of the number with them. */
  lemma RootStep(r: nat, x: nat, y: nat)
    requires IsRoot(r, x) && 4 * x <= y < 4 * x + 4
    ensures IsRoot(if y >= (2 * r + 1) * (2 * r + 1) then 2 * r + 1 else 2 * r, y)
  {
    OddSquare(r);
  }

  lemma NextTwoBits(x: nat, s: nat)
    ensures 4 * Div(x, Pow2(s + 2)) <= Div(x, Pow2(s)) < 4 * Div(x, Pow2(s + 2)) + 4
    ensures 4 * Div(x, Pow2(s + 2)) <= x
  {
    hide Div, Pow2, Mod;
    NextBit(x, s);
    NextBit(x, s + 1);
    QuotientBound(x, Pow2(s));
    BitBound(Div(x, Pow2(s)));
    BitBound(Div(x, Pow2(s + 1)));
  }

  lemma BitBound(x: nat)
    ensures Mod(x, 2) < 2
  {
  }

  lemma BitsEven(d: nat)
    requires d > 0
    ensures Bits(d) == 2 * Bits(d - 1)
  {
  }

  /** The numbers a step of the square root loop computes; squaring the candidate does not wrap around. */
  lemma SqrtStep(x: UInt, res: UInt, shift: nat, d: nat)
    requires d > 0 && IsOf(x, d) && IsOf(res, d) && IsRoot(Val(res, d), Div(Val(x, d), Pow2(shift + 2)))
    ensures var doubled := Shl(res, 1, d);
      WordHasOne() && var cand := OrSmall(doubled, 1, d);
      && Val(doubled, d) == 2 * Val(res, d) && Val(cand, d) == 2 * Val(res, d) + 1
      && Val(cand, d) * Val(cand, d) < Base(d)
      && IsRoot(if Div(Val(x, d), Pow2(shift)) >= Val(cand, d) * Val(cand, d) then Val(cand, d) else Val(doubled, d),
                Div(Val(x, d), Pow2(shift)))
  {
    hide Div, Mod, Pow2, Shl, OrSmall, Val, LeftShifted, Bits, Base;
    WordBaseLarge();
    var r, v := Val(res, d), Val(x, d);
    NextTwoBits(v, shift);
    ValBound(x, d);
    BaseIs(d);
    BitsEven(d);
    EvenBits(Bits(d), Bits(d - 1), r);
    RootStep(r, Div(v, Pow2(shift + 2)), Div(v, Pow2(shift)));
    CandidateFits(r, Bits(d - 1));
    Pow2Monotone(Bits(d - 1), Bits(d));
    ShlVal(res, 1, d);
    DoubledFits(r, Bits(d));
    ShiftedIn(res, 1, d);
  }

  predicate WordHasOne() {
    1 < Base(0)
  }

  lemma CandidateFits(r: nat, m: nat)
    requires 2 * r + 1 < Pow2(m)
    ensures 2 * r < Pow2(m)
  {
  }

  lemma RootOfNothing(x: nat, n: nat)
    requires x < Pow2(n)
    ensures IsRoot(0, Div(x, Pow2(n)))
  {
    hide Div;
    QuotientVanishes(x, n, n);
  }

  lemma RootOfHighBits(x: nat, n: nat, m: nat)
    requires x < Pow2(n) && n <= m
    ensures IsRoot(0, Div(x, Pow2(m)))
  {
    Pow2Monotone(n, m);
    RootOfNothing(x, m);
  }

  /** `sqrt`: the square root rounded down. */
  method Sqrt(x: UInt, d: nat, undef: nat) returns (res: UInt)
    requires d > 0 && IsOf(x, d) && undef <= 64
    ensures IsOf(res, d) && IsRoot(Val(res, d), Val(x, d))
  {
    hide Div, Mod, Pow2, Shl, Shr, OrSmall, Val, Base, Clz, Small, Zero, IsRoot, Bits, AtLeast, IsZero;
    WordBaseLarge();
    SmallVal(1, d);
    if x == Small(1, d) {
      RootOfOne();
      return Small(1, d);
    }
    var n := Bits(d) - Clz(x, d, undef);
    var shift: int := n - n % 2;
    res := Zero(d);
    ZeroVal(d);
    SqrtStart(x, d, undef);
    while shift >= 0
      invariant shift >= -2 && shift % 2 == 0 && IsOf(res, d) && IsRoot(Val(res, d), Div(Val(x, d), Pow2(shift + 2)))
    {
      SqrtStep(x, res, shift, d);
      ShrVal(x, shift, d);
      res := Shl(res, 1, d);
      var largeCand := OrSmall(res, 1, d);
      var square := Multiply(largeCand, largeCand, d);
      SquareIs(Val(largeCand, d), Base(d), Val(square, d));
      Comparisons(Shr(x, shift, d), square, d);
      if AtLeast(Shr(x, shift, d), square, d) {
        res := largeCand;
      }
      shift := shift - 2;
    }
    RightByZero(Val(x, d));
  }

  lemma SquareIs(c: nat, base: nat, s: nat)
    requires c * c < base && s == Mod(c * c, base)
    ensures s == c * c
  {
    DivModIs(c * c, base, 0, c * c);
  }

  lemma RootOfOne()
    ensures IsRoot(1, 1)
  {
  }

  lemma SqrtStart(x: UInt, d: nat, undef: nat)
    requires d > 0 && IsOf(x, d) && undef <= 64
    ensures var n := Bits(d) - Clz(x, d, undef);
      n - n % 2 >= 0 && IsRoot(0, Div(Val(x, d), Pow2(n - n % 2 + 2)))
  {
    hide Div, Pow2, Val, Clz, IsRoot, IsZero;
    var n := Bits(d) - Clz(x, d, undef);
    ClzVal(x, d, undef);
    IsZeroVal(x, d);
    if !IsZero(x) {
      RootOfHighBits(Val(x, d), n, n - n % 2 + 2);
    } else {
      RootOfHighBits(Val(x, d), 0, n - n % 2 + 2);
    }
  }
}
