/** Fixed-width unsigned integers of two limbs, where a limb may itself be such an integer. */
module UFixedBigInts {
  import opened Powers

  // ---- Widths and values ----

  /** Bits of a number of nesting depth `d`; depth 0 is `u64`. */
  function Bits(d: nat): (n: nat)
    ensures n >= 64
  {
    if d == 0 then 64 else 2 * Bits(d - 1)
  }

  /** One more than the largest value of depth `d`. */
  function Base(d: nat): (b: nat)
    ensures b >= 1
  {
    Pow2(Bits(d))
  }

  lemma BaseSquare(d: nat)
    requires d > 0
    ensures Base(d) == Base(d - 1) * Base(d - 1)
  {
    Pow2Sum(Bits(d - 1), Bits(d - 1));
  }

  datatype UInt = Word(v: nat) | Big(low: UInt, high: UInt)

  predicate IsOf(x: UInt, d: nat) {
    if d == 0 then x.Word? && x.v < Base(0)
    else x.Big? && IsOf(x.low, d - 1) && IsOf(x.high, d - 1)
  }

  ghost function Val(x: UInt, d: nat): nat
    requires IsOf(x, d)
  {
    if d == 0 then x.v else Val(x.low, d - 1) + Base(d - 1) * Val(x.high, d - 1)
  }

  lemma {:induction false} ValBound(x: UInt, d: nat)
    requires IsOf(x, d)
    ensures Val(x, d) < Base(d)
  {
    if d > 0 {
      ValBound(x.low, d - 1);
      ValBound(x.high, d - 1);
      BaseSquare(d);
      PairBound(Val(x.low, d - 1), Val(x.high, d - 1), Base(d - 1));
    }
  }

  lemma MulStep(b: nat, h: nat, k: nat)
    requires h < k
    ensures b * h + b <= b * k
  {
    Distribute(b, h + 1, k - h - 1);
    Distribute(b, h, 1);
    assert b * (k - h - 1) >= 0;
  }

  lemma MulMonotone(b: nat, h: nat, k: nat)
    requires h <= k
    ensures b * h <= b * k
  {
    if h < k {
      MulStep(b, h, k);
    }
  }

  lemma PairBound(l: nat, h: nat, b: nat)
    requires l < b && h < b
    ensures l + b * h < b * b
  {
    MulStep(b, h, b);
  }

  /** Two limbs determine their value and the other way round. */
  lemma PairUnique(l: nat, h: nat, l': nat, h': nat, b: nat)
    requires l < b && l' < b && l + b * h == l' + b * h'
    ensures l == l' && h == h'
  {
    if h < h' {
      MulStep(b, h, h');
    }
    if h' < h {
      MulStep(b, h', h);
    }
  }

  function Zero(d: nat): (z: UInt)
    ensures IsOf(z, d)
  {
    if d == 0 then Word(0) else Big(Zero(d - 1), Zero(d - 1))
  }

  /** A limb-sized or smaller unsigned value, widened. */
  function Small(u: nat, d: nat): (x: UInt)
    requires u < Base(0)
    ensures IsOf(x, d)
  {
    if d == 0 then Word(u) else Big(Small(u, d - 1), Zero(d - 1))
  }

  lemma {:induction false} ZeroVal(d: nat)
    ensures Val(Zero(d), d) == 0
  {
    if d > 0 {
      ZeroVal(d - 1);
    }
  }

  lemma {:induction false} SmallVal(u: nat, d: nat)
    requires u < Base(0)
    ensures Val(Small(u, d), d) == u
  {
    if d > 0 {
      SmallVal(u, d - 1);
      ZeroVal(d - 1);
    }
  }

  function Bit(b: bool): nat {
    if b then 1 else 0
  }

  // ---- Comparison ----

  predicate IsZero(x: UInt) {
    match x
    case Word(v) => v == 0
    case Big(l, h) => IsZero(l) && IsZero(h)
  }

  predicate Less(x: UInt, y: UInt, d: nat)
    requires IsOf(x, d) && IsOf(y, d)
  {
    if d == 0 then x.v < y.v
    else Less(x.high, y.high, d - 1) || (x.high == y.high && Less(x.low, y.low, d - 1))
  }

  predicate Greater(x: UInt, y: UInt, d: nat)
    requires IsOf(x, d) && IsOf(y, d)
  {
    if d == 0 then x.v > y.v
    else Greater(x.high, y.high, d - 1) || (x.high == y.high && Greater(x.low, y.low, d - 1))
  }

  predicate AtLeast(x: UInt, y: UInt, d: nat)
    requires IsOf(x, d) && IsOf(y, d)
  {
    x == y || Greater(x, y, d)
  }

  lemma {:induction false} IsZeroVal(x: UInt, d: nat)
    requires IsOf(x, d)
    ensures IsZero(x) <==> Val(x, d) == 0
  {
    hide Base;
    if d > 0 {
      IsZeroVal(x.low, d - 1);
      IsZeroVal(x.high, d - 1);
      PairIsZero(Val(x.low, d - 1), Val(x.high, d - 1), Base(d - 1));
    }
  }

  lemma PairIsZero(l: nat, h: nat, b: nat)
    requires b > 0
    ensures l + b * h == 0 <==> l == 0 && h == 0
  {
    if h > 0 {
      assert b * h > 0;
    }
  }

  lemma {:induction false} ValInjective(x: UInt, y: UInt, d: nat)
    requires IsOf(x, d) && IsOf(y, d) && Val(x, d) == Val(y, d)
    ensures x == y
  {
    if d > 0 {
      ValBound(x.low, d - 1);
      ValBound(y.low, d - 1);
      PairUnique(Val(x.low, d - 1), Val(x.high, d - 1), Val(y.low, d - 1), Val(y.high, d - 1), Base(d - 1));
      ValInjective(x.low, y.low, d - 1);
      ValInjective(x.high, y.high, d - 1);
    }
  }

  lemma PairOrder(l: nat, h: nat, l': nat, h': nat, b: nat)
    requires l < b && l' < b
    ensures l + b * h < l' + b * h' <==> h < h' || (h == h' && l < l')
  {
    if h < h' {
      MulStep(b, h, h');
    }
    if h' < h {
      MulStep(b, h', h);
    }
  }

  /** The lexicographic comparisons on limbs compare the numbers. */
  lemma {:induction false} Comparisons(x: UInt, y: UInt, d: nat)
    requires IsOf(x, d) && IsOf(y, d)
    ensures Less(x, y, d) <==> Val(x, d) < Val(y, d)
    ensures Greater(x, y, d) <==> Val(x, d) > Val(y, d)
    ensures AtLeast(x, y, d) <==> Val(x, d) >= Val(y, d)
  {
    if Val(x, d) == Val(y, d) {
      ValInjective(x, y, d);
    }
    if d > 0 {
      Comparisons(x.low, y.low, d - 1);
      Comparisons(x.high, y.high, d - 1);
      ValBound(x.low, d - 1);
      ValBound(y.low, d - 1);
      var l, h, l', h' := Val(x.low, d - 1), Val(x.high, d - 1), Val(y.low, d - 1), Val(y.high, d - 1);
      if h == h' {
        ValInjective(x.high, y.high, d - 1);
      }
      PairOrder(l, h, l', h', Base(d - 1));
      PairOrder(l', h', l, h, Base(d - 1));
    }
  }

  // ---- Addition ----

  /** `Checked<u64>::addition_would_overflow` */
  predicate WouldOverflow(a: nat, b: nat) {
    a + b >= Base(0)
  }

  /** `u64` addition, which wraps around. */
  function AddWords(a: nat, b: nat): (s: nat)
    requires a < Base(0) && b < Base(0)
    ensures s < Base(0)
  {
    if a + b >= Base(0) then a + b - Base(0) else a + b
  }

  /** `addc` of equal widths: the sum, and the carry out. */
  function AddC(x: UInt, y: UInt, carry: bool, d: nat): (r: (UInt, bool))
    requires d > 0 && IsOf(x, d) && IsOf(y, d)
    ensures IsOf(r.0, d)
    decreases d
  {
    if d == 1 then
      assert IsOf(x.low, 0) && IsOf(x.high, 0) && IsOf(y.low, 0) && IsOf(y.high, 0);
      WordBaseLarge();
      var lowCarry := WouldOverflow(x.low.v, y.low.v);
      var highCarry := WouldOverflow(x.high.v, y.high.v);
      var lower := AddWords(x.low.v, y.low.v);
      var higher := AddWords(x.high.v, y.high.v);
      var lowCarry' := lowCarry || WouldOverflow(lower, Bit(carry));
      var highCarry' := highCarry || WouldOverflow(higher, Bit(lowCarry'));
      (Big(Word(AddWords(lower, Bit(carry))), Word(AddWords(higher, Bit(lowCarry')))), highCarry')
    else
      var lower := AddC(x.low, y.low, carry, d - 1);
      var higher := AddC(x.high, y.high, lower.1, d - 1);
      (Big(lower.0, higher.0), higher.1)
  }

  /** Adding a carry bit to a sum of two words overflows at most once in total. */
  lemma AddCarryExact(a: nat, b: nat, carry: bool)
    requires a < Base(0) && b < Base(0)
    ensures Bit(carry) < Base(0)
    ensures var s := AddWords(a, b);
      AddWords(s, Bit(carry)) + Base(0) * Bit(WouldOverflow(a, b) || WouldOverflow(s, Bit(carry))) == a + b + Bit(carry)
  {
    WordBaseLarge();
  }

  lemma WordBaseLarge()
    ensures Base(0) >= 256
  {
    Pow2Monotone(8, 64);
  }

  lemma PairSum(l: int, h: int, l1: int, h1: int, l2: int, h2: int, b: int, c0: int, c1: int, c2: int)
    requires l + b * c1 == l1 + l2 + c0
    requires h + b * c2 == h1 + h2 + c1
    ensures l + b * h + (b * b) * c2 == (l1 + b * h1) + (l2 + b * h2) + c0
  {
    assert b * (h + b * c2) == b * (h1 + h2 + c1);
    assert b * (b * c2) == (b * b) * c2;
  }

  /** `addc` is exact: no part of the sum is lost, at every width. */
  lemma {:induction false} AddCExact(x: UInt, y: UInt, carry: bool, d: nat)
    requires d > 0 && IsOf(x, d) && IsOf(y, d)
    ensures var r := AddC(x, y, carry, d);
      Val(r.0, d) + Base(d) * Bit(r.1) == Val(x, d) + Val(y, d) + Bit(carry)
    decreases d
  {
    hide Base;
    var r := AddC(x, y, carry, d);
    BaseSquare(d);
    var b := Base(d - 1);
    if d == 1 {
      assert IsOf(x.low, 0) && IsOf(x.high, 0) && IsOf(y.low, 0) && IsOf(y.high, 0);
      AddCarryExact(x.low.v, y.low.v, carry);
      var c := WouldOverflow(x.low.v, y.low.v) || WouldOverflow(AddWords(x.low.v, y.low.v), Bit(carry));
      AddCarryExact(x.high.v, y.high.v, c);
      PairSum(r.0.low.v, r.0.high.v, x.low.v, x.high.v, y.low.v, y.high.v, b, Bit(carry), Bit(c), Bit(r.1));
    } else {
      var lower := AddC(x.low, y.low, carry, d - 1);
      AddCExact(x.low, y.low, carry, d - 1);
      AddCExact(x.high, y.high, lower.1, d - 1);
      PairSum(Val(lower.0, d - 1), Val(r.0.high, d - 1), Val(x.low, d - 1), Val(x.high, d - 1),
              Val(y.low, d - 1), Val(y.high, d - 1), b, Bit(carry), Bit(lower.1), Bit(r.1));
    }
  }

  // ---- Subtraction ----

  /** `u64` subtraction, which wraps around. */
  function SubWords(a: nat, b: nat): (s: nat)
    requires a < Base(0) && b < Base(0)
    ensures s < Base(0)
  {
    if a >= b then a - b else a - b + Base(0)
  }

  predicate LessSmall(x: UInt, u: nat, d: nat)
    requires IsOf(x, d)
  {
    if d == 0 then x.v < u else IsZero(x.high) && LessSmall(x.low, u, d - 1)
  }

  /** `operator-(R const&)`; on `u64`, the machine subtraction. */
  function Minus(x: UInt, y: UInt, d: nat): (r: UInt)
    requires IsOf(x, d) && IsOf(y, d)
    ensures IsOf(r, d)
    decreases d, 1
  {
    if d == 0 then Word(SubWords(x.v, y.v)) else SubC(x, y, false, d).0
  }

  /** `operator-` of a smaller unsigned value, or of a `bool` by way of `u8`. */
  function MinusSmall(x: UInt, u: nat, d: nat): (r: UInt)
    requires IsOf(x, d) && u < Base(0)
    ensures IsOf(r, d)
    decreases d, 1
  {
    if d == 0 then Word(SubWords(x.v, u)) else SubCSmall(x, u, false, d).0
  }

  /** `subc` of a smaller unsigned value. */
  function SubCSmall(x: UInt, u: nat, carry: bool, d: nat): (r: (UInt, bool))
    requires d > 0 && IsOf(x, d) && u < Base(0)
    ensures IsOf(r.0, d)
    decreases d, 0
  {
    BitIsWord(carry);
    var lowCarry := (IsZero(x.low) && carry) || LessSmall(MinusSmall(x.low, Bit(carry), d - 1), u, d - 1);
    BitIsWord(lowCarry);
    var highCarry := IsZero(x.high) && lowCarry;
    var lower := MinusSmall(MinusSmall(x.low, u, d - 1), Bit(carry), d - 1);
    var higher := MinusSmall(x.high, Bit(lowCarry), d - 1);
    (Big(lower, higher), highCarry)
  }

  /** `subc` of equal widths: the difference, and the borrow out. */
  function SubC(x: UInt, y: UInt, carry: bool, d: nat): (r: (UInt, bool))
    requires d > 0 && IsOf(x, d) && IsOf(y, d)
    ensures IsOf(r.0, d)
    decreases d, 0
  {
    BitIsWord(carry);
    var lowCarry := (IsZero(x.low) && carry) || Less(MinusSmall(x.low, Bit(carry), d - 1), y.low, d - 1);
    BitIsWord(lowCarry);
    var highCarry := (IsZero(x.high) && lowCarry) || Less(MinusSmall(x.high, Bit(lowCarry), d - 1), y.high, d - 1);
    var lower := MinusSmall(Minus(x.low, y.low, d - 1), Bit(carry), d - 1);
    var higher := MinusSmall(Minus(x.high, y.high, d - 1), Bit(lowCarry), d - 1);
    (Big(lower, higher), highCarry)
  }

  lemma BitIsWord(b: bool)
    ensures Bit(b) < Base(0)
  {
    WordBaseLarge();
  }

  lemma {:induction false} LessSmallVal(x: UInt, u: nat, d: nat)
    requires IsOf(x, d) && u < Base(0)
    ensures LessSmall(x, u, d) <==> Val(x, d) < u
  {
    hide Base;
    if d > 0 {
      LessSmallVal(x.low, u, d - 1);
      IsZeroVal(x.high, d - 1);
      BaseGrows(d - 1);
      if Val(x.high, d - 1) > 0 {
        MulStep(Base(d - 1), 0, Val(x.high, d - 1));
      }
    } else {
      assert Val(x, d) == x.v;
    }
  }

  lemma {:induction false} BaseGrows(d: nat)
    ensures Base(0) <= Base(d)
  {
    if d > 0 {
      BaseGrows(d - 1);
      Pow2Monotone(Bits(d - 1), Bits(d));
    }
  }

  /** `a - b` on numbers below `m`, with the borrow it takes to stay there. */
  predicate Wrapped(r: int, a: int, b: int, m: int, borrow: bool) {
    0 <= r < m && r == a - b + m * Bit(borrow)
  }

  /** Taking off a carry first and `b` second, or the other way round, borrows at most once in total. */
  lemma BorrowOnce(a: int, b: int, carry: bool, m: int, t: int, bt: bool, s: int, bs: bool, r: int, br: bool)
    requires 0 <= a < m && 0 <= b < m
    requires Wrapped(t, a, Bit(carry), m, bt)
    requires Wrapped(s, a, b, m, bs) && Wrapped(r, s, Bit(carry), m, br)
    ensures r == a - b - Bit(carry) + m * Bit((a == 0 && carry) || t < b)
  {
    if (a == 0 && carry) || t < b {
      assert r == a - b - Bit(carry) + m;
    }
  }

  lemma PairDifference(l: int, h: int, l1: int, h1: int, l2: int, h2: int, b: int, c0: int, c1: int, c2: int)
    requires l == l1 - l2 - c0 + b * c1
    requires h == h1 - h2 - c1 + b * c2
    ensures l + b * h == (l1 + b * h1) - (l2 + b * h2) - c0 + (b * b) * c2
  {
    assert b * h == b * (h1 - h2 - c1 + b * c2);
    assert b * (b * c2) == (b * b) * c2;
  }

  lemma BorrowIsNeeded(r: int, a: int, b: int, m: int, borrow: bool)
    requires 0 <= r < m && 0 <= a < m && 0 <= b < m && r == a - b + m * Bit(borrow)
    ensures Wrapped(r, a, b, m, a < b)
  {
  }

  lemma MinusSmallExact(x: UInt, u: nat, d: nat)
    requires IsOf(x, d) && u < Base(0)
    ensures Wrapped(Val(MinusSmall(x, u, d), d), Val(x, d), u, Base(d), Val(x, d) < u)
    decreases d, 1
  {
    hide Base, SubCSmall;
    if d > 0 {
      ValBound(MinusSmall(x, u, d), d);
      SubCSmallExact(x, u, false, d);
      ValBound(x, d);
      BaseGrows(d);
      BorrowIsNeeded(Val(MinusSmall(x, u, d), d), Val(x, d), u, Base(d), SubCSmall(x, u, false, d).1);
    }
  }

  lemma SubCSmallExact(x: UInt, u: nat, carry: bool, d: nat)
    requires d > 0 && IsOf(x, d) && u < Base(0)
    ensures var r := SubCSmall(x, u, carry, d);
      Val(r.0, d) == Val(x, d) - u - Bit(carry) + Base(d) * Bit(r.1)
    decreases d, 0
  {
    hide Base, IsZero, LessSmall, MinusSmall;
    var r := SubCSmall(x, u, carry, d);
    BaseSquare(d);
    var lowCarry := (IsZero(x.low) && carry) || LessSmall(SubBit(x.low, carry, d - 1), u, d - 1);
    SubSmallLimb(x.low, u, carry, d - 1);
    SubLastLimb(x.high, lowCarry, d - 1);
    ValIs(r.0, d);
    ValIs(x, d);
    hide Val, SubCSmall;
    PairLess(Val(r.0, d), Val(x, d), Base(d), Val(r.0.low, d - 1), Val(r.0.high, d - 1), Val(x.low, d - 1),
             Val(x.high, d - 1), u, Base(d - 1), Bit(carry), Bit(lowCarry), Bit(r.1));
  }

  lemma ValIs(x: UInt, d: nat)
    requires d > 0 && IsOf(x, d)
    ensures Val(x, d) == Val(x.low, d - 1) + Base(d - 1) * Val(x.high, d - 1)
  {
  }

  lemma PairLess(v: int, v1: int, base: int, l: int, h: int, l1: int, h1: int, u: int, b: int,
                 c0: int, c1: int, c2: int)
    requires v == l + b * h && v1 == l1 + b * h1 && base == b * b
    requires l == l1 - u - c0 + b * c1 && h == h1 - c1 + b * c2
    ensures v == v1 - u - c0 + base * c2
  {
    PairDifference(l, h, l1, h1, u, 0, b, c0, c1, c2);
  }

  /** The lower limb of a difference with a small value, with the borrow the code computes for it. */
  lemma SubSmallLimb(x: UInt, u: nat, carry: bool, d: nat)
    requires IsOf(x, d) && u < Base(0)
    ensures var borrow := (IsZero(x) && carry) || LessSmall(SubBit(x, carry, d), u, d);
      Val(SubBit(MinusSmall(x, u, d), carry, d), d) == Val(x, d) - u - Bit(carry) + Base(d) * Bit(borrow)
    decreases d, 2
  {
    hide Base, IsZero, LessSmall, MinusSmall, Wrapped;
    BitIsWord(carry);
    var t, s := SubBit(x, carry, d), MinusSmall(x, u, d);
    MinusSmallExact(x, Bit(carry), d);
    MinusSmallExact(x, u, d);
    MinusSmallExact(s, Bit(carry), d);
    IsZeroVal(x, d);
    LessSmallVal(t, u, d);
    ValBound(x, d);
    BaseGrows(d);
    BorrowOnce(Val(x, d), u, carry, Base(d), Val(t, d), Val(x, d) < Bit(carry), Val(s, d), Val(x, d) < u,
               Val(SubBit(s, carry, d), d), Val(s, d) < Bit(carry));
  }

  /** The higher limb, from which only the borrow is taken. */
  lemma SubLastLimb(x: UInt, carry: bool, d: nat)
    requires IsOf(x, d)
    ensures Val(SubBit(x, carry, d), d) == Val(x, d) - Bit(carry) + Base(d) * Bit(IsZero(x) && carry)
    decreases d, 2
  {
    hide Base, IsZero, MinusSmall;
    BitIsWord(carry);
    MinusSmallExact(x, Bit(carry), d);
    IsZeroVal(x, d);
  }

  lemma MinusExact(x: UInt, y: UInt, d: nat)
    requires IsOf(x, d) && IsOf(y, d)
    ensures Wrapped(Val(Minus(x, y, d), d), Val(x, d), Val(y, d), Base(d), Val(x, d) < Val(y, d))
    decreases d, 1
  {
    hide Base, SubC;
    if d > 0 {
      ValBound(Minus(x, y, d), d);
      ValBound(x, d);
      ValBound(y, d);
      SubCExact(x, y, false, d);
      BorrowIsNeeded(Val(Minus(x, y, d), d), Val(x, d), Val(y, d), Base(d), SubC(x, y, false, d).1);
    }
  }

  /** `subc` is exact at every width. */
  lemma SubCExact(x: UInt, y: UInt, carry: bool, d: nat)
    requires d > 0 && IsOf(x, d) && IsOf(y, d)
    ensures var r := SubC(x, y, carry, d);
      Val(r.0, d) == Val(x, d) - Val(y, d) - Bit(carry) + Base(d) * Bit(r.1)
    decreases d, 0
  {
    hide Base, IsZero, Less, MinusSmall, Minus;
    var r := SubC(x, y, carry, d);
    BaseSquare(d);
    var lowCarry := (IsZero(x.low) && carry) || Less(SubBit(x.low, carry, d - 1), y.low, d - 1);
    SubLimb(x.low, y.low, carry, d - 1);
    SubLimb(x.high, y.high, lowCarry, d - 1);
    PairDifference(Val(r.0.low, d - 1), Val(r.0.high, d - 1), Val(x.low, d - 1), Val(x.high, d - 1),
                   Val(y.low, d - 1), Val(y.high, d - 1), Base(d - 1), Bit(carry), Bit(lowCarry), Bit(r.1));
  }

  function SubBit(x: UInt, carry: bool, d: nat): (r: UInt)
    requires IsOf(x, d)
    ensures IsOf(r, d)
  {
    BitIsWord(carry);
    MinusSmall(x, Bit(carry), d)
  }

  /** One limb of `subc`: the difference, with the borrow the code computes for it. */
  lemma SubLimb(x: UInt, y: UInt, carry: bool, d: nat)
    requires IsOf(x, d) && IsOf(y, d)
    ensures var borrow := (IsZero(x) && carry) || Less(SubBit(x, carry, d), y, d);
      Val(SubBit(Minus(x, y, d), carry, d), d) == Val(x, d) - Val(y, d) - Bit(carry) + Base(d) * Bit(borrow)
    decreases d, 2
  {
    hide Base, IsZero, Less, MinusSmall, Minus, Wrapped;
    BitIsWord(carry);
    var t, s := SubBit(x, carry, d), Minus(x, y, d);
    MinusSmallExact(x, Bit(carry), d);
    MinusExact(x, y, d);
    MinusSmallExact(s, Bit(carry), d);
    IsZeroVal(x, d);
    Comparisons(t, y, d);
    ValBound(x, d);
    ValBound(y, d);
    BorrowOnce(Val(x, d), Val(y, d), carry, Base(d), Val(t, d), Val(x, d) < Bit(carry), Val(s, d),
               Val(x, d) < Val(y, d),
               Val(SubBit(s, carry, d), d), Val(s, d) < Bit(carry));
  }

  // ---- Bitwise or ----

  /** The bitwise or of two numbers. */
  function BitOr(a: nat, b: nat): nat
    decreases a + b
  {
    if a == 0 && b == 0 then 0
    else 2 * BitOr(a / 2, b / 2) + if a % 2 == 1 || b % 2 == 1 then 1 else 0
  }

  lemma {:induction false} BitOrZero(a: nat)
    ensures BitOr(a, 0) == a && BitOr(0, a) == a
  {
    if a > 0 {
      BitOrZero(a / 2);
    }
  }

  lemma {:induction false} BitOrBound(a: nat, b: nat, k: nat)
    requires a < Pow2(k) && b < Pow2(k)
    ensures BitOr(a, b) < Pow2(k)
  {
    if k > 0 && (a > 0 || b > 0) {
      BitOrBound(a / 2, b / 2, k - 1);
    }
  }

  lemma HalfOfSum(a: nat, p: nat, b: nat)
    ensures (a + (2 * p) * b) / 2 == a / 2 + p * b && (a + (2 * p) * b) % 2 == a % 2
  {
    MulAssociates(2, p, b);
  }

  lemma BitOrTwice(a: nat, c: nat, o: nat, p: nat, x: nat, y: nat)
    requires x / 2 >= 0 && BitOr(x / 2, y / 2) == BitOr(a / 2, c / 2) + p * o
    requires x % 2 == a % 2 && y % 2 == c % 2
    ensures BitOr(x, y) == BitOr(a, c) + (2 * p) * o
  {
    BitOrStep(x, y);
    BitOrStep(a, c);
    MulAssociates(2, p, o);
  }

  /** The or of two-part numbers is taken part by part. */
  lemma {:induction false} BitOrSplit(a: nat, b: nat, c: nat, e: nat, k: nat)
    requires a < Pow2(k) && c < Pow2(k)
    ensures BitOr(a + Pow2(k) * b, c + Pow2(k) * e) == BitOr(a, c) + Pow2(k) * BitOr(b, e)
  {
    hide BitOr;
    if k == 0 {
      BitOrZero(0);
      assert a == 0 && c == 0 && Pow2(k) == 1;
    } else {
      var p := Pow2(k - 1);
      assert Pow2(k) == 2 * p;
      hide Pow2;
      BitOrSplit(a / 2, b, c / 2, e, k - 1);
      HalfOfSum(a, p, b);
      HalfOfSum(c, p, e);
      BitOrTwice(a, c, BitOr(b, e), p, a + (2 * p) * b, c + (2 * p) * e);
    }
  }

  lemma BaseIs(d: nat)
    ensures Base(d) == Pow2(Bits(d))
  {
  }

  lemma BitOrStep(a: nat, b: nat)
    ensures BitOr(a, b) == 2 * BitOr(a / 2, b / 2) + if a % 2 == 1 || b % 2 == 1 then 1 else 0
  {
  }

  /** Numbers without common bit positions are added by or-ing them. */
  lemma BitOrDisjoint(q: nat, b: nat, k: nat)
    requires b < Pow2(k)
    ensures BitOr(Pow2(k) * q, b) == Pow2(k) * q + b && BitOr(b, Pow2(k) * q) == Pow2(k) * q + b
  {
    hide BitOr, Pow2;
    BitOrSplit(0, q, b, 0, k);
    BitOrSplit(b, 0, 0, q, k);
    BitOrZero(b);
    BitOrZero(q);
  }

  /** `operator|` of equal widths. */
  function Or(x: UInt, y: UInt, d: nat): (r: UInt)
    requires IsOf(x, d) && IsOf(y, d)
    ensures IsOf(r, d)
  {
    if d == 0 then BitOrBound(x.v, y.v, 64); Word(BitOr(x.v, y.v))
    else Big(Or(x.low, y.low, d - 1), Or(x.high, y.high, d - 1))
  }

  lemma {:induction false} OrVal(x: UInt, y: UInt, d: nat)
    requires IsOf(x, d) && IsOf(y, d)
    ensures Val(Or(x, y, d), d) == BitOr(Val(x, d), Val(y, d))
  {
    if d > 0 {
      OrVal(x.low, y.low, d - 1);
      OrVal(x.high, y.high, d - 1);
      ValBound(x.low, d - 1);
      ValBound(y.low, d - 1);
      BitOrSplit(Val(x.low, d - 1), Val(x.high, d - 1), Val(y.low, d - 1), Val(y.high, d - 1), Bits(d - 1));
    }
  }

  /** `operator|` of a smaller unsigned value: only the lowest word changes. */
  function OrSmall(x: UInt, u: nat, d: nat): (r: UInt)
    requires IsOf(x, d) && u < Base(0)
    ensures IsOf(r, d)
  {
    if d == 0 then BitOrBound(x.v, u, 64); Word(BitOr(x.v, u))
    else Big(OrSmall(x.low, u, d - 1), x.high)
  }

  lemma {:induction false} OrSmallVal(x: UInt, u: nat, d: nat)
    requires IsOf(x, d) && u < Base(0)
    ensures Val(OrSmall(x, u, d), d) == BitOr(Val(x, d), u)
  {
    hide BitOr, Base;
    if d > 0 {
      BaseIs(d - 1);
      OrSmallVal(x.low, u, d - 1);
      ValBound(x.low, d - 1);
      BaseGrows(d - 1);
      BitOrSplit(Val(x.low, d - 1), Val(x.high, d - 1), u, 0, Bits(d - 1));
      BitOrZero(Val(x.high, d - 1));
    }
  }

  /** `operator&` with 1: the lowest bit. */
  function LowBit(x: UInt, d: nat): (b: nat)
    requires IsOf(x, d)
    ensures b < 2
  {
    if d == 0 then x.v % 2 else LowBit(x.low, d - 1)
  }

  lemma {:induction false} LowBitVal(x: UInt, d: nat)
    requires IsOf(x, d)
    ensures LowBit(x, d) == Val(x, d) % 2
  {
    if d > 0 {
      LowBitVal(x.low, d - 1);
      var p := Pow2(Bits(d - 1) - 1);
      assert Base(d - 1) == 2 * p;
      LowBitOfPair(Val(x.low, d - 1), p, Val(x.high, d - 1), Base(d - 1));
      hide Base, Pow2, Bits;
    }
  }

  lemma LowBitOfPair(l: nat, p: nat, h: nat, b: nat)
    requires b == 2 * p
    ensures (l + b * h) % 2 == l % 2
  {
    HalfOfSum(l, p, h);
  }

  // ---- Shifts ----

  function Div(x: nat, m: nat): (q: nat)
    requires m > 0
  {
    x / m
  }

  function Mod(x: nat, m: nat): (r: nat)
    requires m > 0
  {
    x % m
  }

  lemma DivModIs(x: nat, m: nat, q: nat, r: nat)
    requires r < m && x == m * q + r
    ensures Div(x, m) == q && Mod(x, m) == r
  {
    var q', r' := x / m, x % m;
    assert x == m * q' + r' && r' < m;
    PairUnique(r, q, r', q', m);
  }

  lemma DivMod(x: nat, m: nat) returns (q: nat, r: nat)
    requires m > 0
    ensures x == m * q + r && r < m && q == Div(x, m) && r == Mod(x, m)
  {
    q, r := x / m, x % m;
  }

  /** Shifting left by `s` in `n` bits keeps the low `n - s` bits. */
  ghost function LeftShifted(x: nat, s: nat, n: nat): nat
    requires s <= n
  {
    Mod(x, Pow2(n - s)) * Pow2(s)
  }

  lemma QuotientBound(x: nat, m: nat)
    requires m > 0
    ensures Div(x, m) <= x
  {
    hide Div, Mod;
    var q, r := DivMod(x, m);
    Distribute(q, m - 1, 1);
    assert q * (m - 1) >= 0;
  }

  lemma ScaleBound(r: nat, m: nat, p: nat)
    requires r < m
    ensures r * p + p <= m * p
  {
    assert m * p == (r + 1) * p + (m - r - 1) * p;
  }

  lemma LeftShiftedBound(x: nat, s: nat, n: nat)
    requires s <= n
    ensures LeftShifted(x, s, n) < Pow2(n)
  {
    hide Div, Mod;
    Pow2Sum(n - s, s);
    var _, _ := DivMod(x, Pow2(n - s));
    ScaleBound(Mod(x, Pow2(n - s)), Pow2(n - s), Pow2(s));
  }

  /** The machine shifts of `u64`. */
  function ShlWord(v: nat, s: nat): (r: nat)
    requires s < 64
    ensures r < Base(0) && r == LeftShifted(v, s, 64)
  {
    LeftShiftedBound(v, s, 64);
    Mod(v, Pow2(64 - s)) * Pow2(s)
  }

  function ShrWord(v: nat, s: nat): (r: nat)
    ensures r <= v && r == Div(v, Pow2(s))
  {
    QuotientBound(v, Pow2(s));
    Div(v, Pow2(s))
  }

  /** `operator<<`; on `u64`, the machine shift. */
  function Shl(x: UInt, s: nat, d: nat): (r: UInt)
    requires IsOf(x, d) && (d == 0 ==> s < 64)
    ensures IsOf(r, d)
    decreases d
  {
    if d == 0 then Word(ShlWord(x.v, s))
    else
      var n := Bits(d - 1);
      if s >= Bits(d) then Zero(d)
      else if s >= n then Big(Zero(d - 1), Shl(x.low, s - n, d - 1))
      else if s == 0 then x
      else
        var overflow := Shr(x.low, n - s, d - 1);
        Big(Shl(x.low, s, d - 1), Or(Shl(x.high, s, d - 1), overflow, d - 1))
  }

  /** `operator>>`; on `u64`, the machine shift. */
  function Shr(x: UInt, s: nat, d: nat): (r: UInt)
    requires IsOf(x, d) && (d == 0 ==> s < 64)
    ensures IsOf(r, d)
    decreases d
  {
    if d == 0 then Word(ShrWord(x.v, s))
    else
      var n := Bits(d - 1);
      if s >= Bits(d) then Zero(d)
      else if s >= n then Big(Shr(x.high, s - n, d - 1), Zero(d - 1))
      else if s == 0 then x
      else
        var underflow := Shl(x.high, n - s, d - 1);
        Big(Or(Shr(x.low, s, d - 1), underflow, d - 1), Shr(x.high, s, d - 1))
  }

  lemma Distribute(a: int, b: int, c: int)
    ensures a * (b + c) == a * b + a * c && (b + c) * a == b * a + c * a
  {
  }

  lemma Swap3(a: int, b: int, c: int)
    ensures a * (b * c) == b * (a * c) && (a * b) * c == (a * c) * b && a * (b * c) == (b * a) * c
  {
    assert a * (b * c) == (a * b) * c;
    assert b * (a * c) == (b * a) * c;
    assert (a * b) * c == a * (c * b);
  }

  lemma PairBoundBelow(l: nat, h: nat, b: nat, m: nat)
    requires l < b && h < m
    ensures l + b * h < b * m
  {
    MulStep(b, h, m);
  }

  lemma LeftSmallParts(l: nat, h: nat, a: nat, p: nat, b: nat, lq: nat, lr: nat, hq: nat, hr: nat)
    requires l == a * lq + lr && h == a * hq + hr && b == a * p
    ensures l + b * h == (b * a) * hq + (l + b * hr)
    ensures (l + b * hr) * p == lr * p + b * (hr * p + lq)
  {
    Distribute(b, a * hq, hr);
    Swap3(b, a, hq);
    Distribute(p, l, b * hr);
    Distribute(p, a * lq, lr);
    Swap3(a, lq, p);
    Swap3(b, hr, p);
    Distribute(b, hr * p, lq);
  }

  lemma LeftSmallCore(l: nat, h: nat, a: nat, p: nat, b: nat, ls: nat, hs: nat)
    requires a > 0 && l < b && b == a * p && ls == Mod(l, a) * p && hs == Mod(h, a) * p
    ensures b * a > 0 && Mod(l + b * h, b * a) * p == ls + b * (hs + Div(l, a))
  {
    hide Div, Mod;
    MulStep(b, 0, a);
    var lq, lr := DivMod(l, a);
    var hq, hr := DivMod(h, a);
    LeftSmallParts(l, h, a, p, b, lq, lr, hq, hr);
    PairBoundBelow(l, hr, b, a);
    DivModIs(l + b * h, b * a, hq, l + b * hr);
  }

  lemma LeftSmall(l: nat, h: nat, n: nat, s: nat)
    requires l < Pow2(n) && 0 < s < n
    ensures LeftShifted(l + Pow2(n) * h, s, 2 * n)
         == LeftShifted(l, s, n) + Pow2(n) * (LeftShifted(h, s, n) + Div(l, Pow2(n - s)))
  {
    hide *;
    Pow2Split(n - s, s, n);
    Pow2Split(n, n - s, 2 * n - s);
    LeftShiftedIs(l, s, n, n - s);
    LeftShiftedIs(h, s, n, n - s);
    LeftShiftedIs(l + Pow2(n) * h, s, 2 * n, 2 * n - s);
    LeftSmallCore(l, h, Pow2(n - s), Pow2(s), Pow2(n), LeftShifted(l, s, n), LeftShifted(h, s, n));
  }

  lemma LeftLargeParts(l: nat, h: nat, a: nat, c: nat, b: nat, lq: nat, lr: nat)
    requires l == a * lq + lr && b == a * c
    ensures l + b * h == a * (lq + c * h) + lr
  {
    MulAssociates(a, c, h);
    Distribute(a, lq, c * h);
  }

  /** A left shift in terms of the bits that stay. */
  lemma LeftShiftedIs(x: nat, s: nat, n: nat, kept: nat)
    requires s <= n && kept == n - s
    ensures LeftShifted(x, s, n) == Mod(x, Pow2(kept)) * Pow2(s)
  {
    hide Pow2, Mod;
  }

  lemma LeftLargeCore(l: nat, h: nat, a: nat, c: nat, b: nat, p: nat, before: nat, after: nat)
    requires a > 0 && b == a * c && p == b * c
    requires before == Mod(l, a) * c && after == Mod(l + b * h, a) * p
    ensures after == b * before
  {
    hide Mod, Div;
    var lq, lr := DivMod(l, a);
    LeftLargeParts(l, h, a, c, b, lq, lr);
    DivModIs(l + b * h, a, lq + c * h, lr);
    Swap3(lr, b, c);
  }

  lemma Pow2Split(a: nat, b: nat, n: nat)
    requires a + b == n
    ensures Pow2(n) == Pow2(a) * Pow2(b)
  {
    hide Pow2;
    Pow2Sum(a, b);
  }

  lemma LeftLarge(l: nat, h: nat, n: nat, s: nat)
    requires n <= s < 2 * n
    ensures LeftShifted(l + Pow2(n) * h, s, 2 * n) == Pow2(n) * LeftShifted(l, s - n, n)
  {
    hide *;
    Pow2Split(2 * n - s, s - n, n);
    Pow2Split(n, s - n, s);
    LeftShiftedIs(l, s - n, n, 2 * n - s);
    LeftShiftedIs(l + Pow2(n) * h, s, 2 * n, 2 * n - s);
    LeftLargeCore(l, h, Pow2(2 * n - s), Pow2(s - n), Pow2(n), Pow2(s),
                  LeftShifted(l, s - n, n), LeftShifted(l + Pow2(n) * h, s, 2 * n));
  }

  lemma RightSmallParts(l: nat, h: nat, p: nat, a: nat, b: nat, lq: nat, lr: nat, hq: nat, hr: nat)
    requires l == p * lq + lr && h == p * hq + hr && b == p * a
    ensures l + b * h == p * (lq + hr * a + b * hq) + lr
  {
    Distribute(b, p * hq, hr);
    Swap3(b, p, hq);
    Swap3(p, hr, a);
    assert b * hr == p * (hr * a);
    Distribute(p, lq, hr * a);
    Distribute(p, lq + hr * a, b * hq);
  }

  lemma RightSmallCore(l: nat, h: nat, p: nat, a: nat, b: nat, under: nat)
    requires p > 0 && b == p * a && under == Mod(h, p) * a
    ensures Div(l + b * h, p) == Div(l, p) + under + b * Div(h, p)
  {
    hide Mod, Div;
    var lq, lr := DivMod(l, p);
    var hq, hr := DivMod(h, p);
    RightSmallParts(l, h, p, a, b, lq, lr, hq, hr);
    DivModIs(l + b * h, p, lq + hr * a + b * hq, lr);
  }

  lemma RightSmall(l: nat, h: nat, n: nat, s: nat)
    requires 0 < s < n
    ensures Div(l + Pow2(n) * h, Pow2(s)) == Div(l, Pow2(s)) + LeftShifted(h, n - s, n) + Pow2(n) * Div(h, Pow2(s))
  {
    hide *;
    Pow2Split(s, n - s, n);
    LeftShiftedIs(h, n - s, n, s);
    RightSmallCore(l, h, Pow2(s), Pow2(n - s), Pow2(n), LeftShifted(h, n - s, n));
  }

  lemma RightLargeParts(l: nat, h: nat, b: nat, c: nat, q: nat, r: nat)
    requires h == c * q + r
    ensures l + b * h == (b * c) * q + (l + b * r)
  {
    Distribute(b, c * q, r);
    MulAssociates(b, c, q);
  }

  lemma RightLarge(l: nat, h: nat, n: nat, s: nat)
    requires l < Pow2(n) && n <= s
    ensures Div(l + Pow2(n) * h, Pow2(s)) == Div(h, Pow2(s - n))
  {
    hide Div, Mod;
    var c, b := Pow2(s - n), Pow2(n);
    Pow2Sum(n, s - n);
    hide Pow2;
    var q, r := DivMod(h, c);
    RightLargeParts(l, h, b, c, q, r);
    PairBoundBelow(l, r, b, c);
    DivModIs(l + b * h, b * c, q, l + b * r);
  }

  lemma QuotientBelow(x: nat, n: nat, s: nat)
    requires x < Pow2(n) && s <= n
    ensures Div(x, Pow2(s)) < Pow2(n - s)
  {
    hide Div, Mod;
    Pow2Sum(s, n - s);
    var q, r := DivMod(x, Pow2(s));
    var p, m := Pow2(s), Pow2(n - s);
    hide Pow2;
    if q >= m {
      MulMonotone(p, m, q);
    }
  }

  lemma LeftByZero(x: nat, n: nat)
    requires x < Pow2(n)
    ensures LeftShifted(x, 0, n) == x
  {
    hide Div, Mod;
    DivModIs(x, Pow2(n), 0, x);
  }

  lemma RightByZero(x: nat)
    ensures Div(x, Pow2(0)) == x
  {
  }

  /** The bits a left shift leaves free can be or-ed in. */
  lemma LeftShiftedOr(x: nat, s: nat, n: nat, b: nat)
    requires s <= n && b < Pow2(s)
    ensures BitOr(LeftShifted(x, s, n), b) == LeftShifted(x, s, n) + b
    ensures BitOr(b, LeftShifted(x, s, n)) == LeftShifted(x, s, n) + b
  {
    hide Div, Mod;
    BitOrDisjoint(Mod(x, Pow2(n - s)), b, s);
  }

  lemma ShlByLimbs(x: UInt, s: nat, d: nat)
    requires d > 0 && IsOf(x, d) && Bits(d - 1) <= s < Bits(d)
    requires Val(Shl(x.low, s - Bits(d - 1), d - 1), d - 1)
      == LeftShifted(Val(x.low, d - 1), s - Bits(d - 1), Bits(d - 1))
    ensures Val(Shl(x, s, d), d) == LeftShifted(Val(x, d), s, Bits(d))
  {
    hide Div, Pow2, LeftShifted;
    LeftLarge(Val(x.low, d - 1), Val(x.high, d - 1), Bits(d - 1), s);
    ZeroVal(d - 1);
    BaseIs(d - 1);
  }

  lemma ShlWithin(x: UInt, s: nat, d: nat)
    requires d > 0 && IsOf(x, d) && 0 < s < Bits(d - 1)
    requires Val(Shl(x.low, s, d - 1), d - 1) == LeftShifted(Val(x.low, d - 1), s, Bits(d - 1))
    requires Val(Shl(x.high, s, d - 1), d - 1) == LeftShifted(Val(x.high, d - 1), s, Bits(d - 1))
    requires Val(Shr(x.low, Bits(d - 1) - s, d - 1), d - 1) == Div(Val(x.low, d - 1), Pow2(Bits(d - 1) - s))
    ensures Val(Shl(x, s, d), d) == LeftShifted(Val(x, d), s, Bits(d))
  {
    hide Div, Pow2, LeftShifted, Or;
    var joined := Or(Shl(x.high, s, d - 1), Shr(x.low, Bits(d - 1) - s, d - 1), d - 1);
    assert Shl(x, s, d) == Big(Shl(x.low, s, d - 1), joined);
    hide Shr, Shl;
    ShlJoined(x.low, x.high, s, d - 1);
    ValBound(x.low, d - 1);
    LeftSmall(Val(x.low, d - 1), Val(x.high, d - 1), Bits(d - 1), s);
    BaseIs(d - 1);
  }

  /** `<<` keeps exactly the bits that fit, at every width. */
  lemma ShlVal(x: UInt, s: nat, d: nat)
    requires IsOf(x, d) && s < Bits(d)
    ensures Val(Shl(x, s, d), d) == LeftShifted(Val(x, d), s, Bits(d))
    decreases d
  {
    hide Div, Pow2, LeftShifted, Or, Base, Val, Shr, Shl;
    if d == 0 {
      ShlWordVal(x, s);
    } else if s >= Bits(d - 1) {
      ShlVal(x.low, s - Bits(d - 1), d - 1);
      ShlByLimbs(x, s, d);
    } else if s == 0 {
      ShiftsByNothing(x, d);
    } else {
      ShlVal(x.low, s, d - 1);
      ShlVal(x.high, s, d - 1);
      ShrVal(x.low, Bits(d - 1) - s, d - 1);
      ShlWithin(x, s, d);
    }
  }

  lemma ShlWordVal(x: UInt, s: nat)
    requires IsOf(x, 0) && s < 64
    ensures Val(Shl(x, s, 0), 0) == LeftShifted(Val(x, 0), s, 64)
  {
    hide Div, Mod;
  }

  lemma ShrJoined(low: UInt, high: UInt, s: nat, d: nat)
    requires IsOf(low, d) && IsOf(high, d) && 0 < s < Bits(d)
    requires Val(Shr(low, s, d), d) == Div(Val(low, d), Pow2(s))
    requires Val(Shl(high, Bits(d) - s, d), d) == LeftShifted(Val(high, d), Bits(d) - s, Bits(d))
    ensures Val(Or(Shr(low, s, d), Shl(high, Bits(d) - s, d), d), d)
         == Div(Val(low, d), Pow2(s)) + LeftShifted(Val(high, d), Bits(d) - s, Bits(d))
  {
    hide Div, Mod;
    ValBound(low, d);
    BaseIs(d);
    hide Or, Val, Shr, Shl, IsOf, Pow2, LeftShifted, Bits, Base;
    QuotientBelow(Val(low, d), Bits(d), s);
    OrVal(Shr(low, s, d), Shl(high, Bits(d) - s, d), d);
    LeftShiftedOr(Val(high, d), Bits(d) - s, Bits(d), Div(Val(low, d), Pow2(s)));
  }

  lemma ShlJoined(low: UInt, high: UInt, s: nat, d: nat)
    requires IsOf(low, d) && IsOf(high, d) && 0 < s < Bits(d)
    requires Val(Shr(low, Bits(d) - s, d), d) == Div(Val(low, d), Pow2(Bits(d) - s))
    requires Val(Shl(high, s, d), d) == LeftShifted(Val(high, d), s, Bits(d))
    ensures Val(Or(Shl(high, s, d), Shr(low, Bits(d) - s, d), d), d)
         == LeftShifted(Val(high, d), s, Bits(d)) + Div(Val(low, d), Pow2(Bits(d) - s))
  {
    hide Div, Mod;
    ValBound(low, d);
    BaseIs(d);
    hide Or, Val, Shr, Shl, IsOf, Pow2, LeftShifted, Bits, Base;
    QuotientBelow(Val(low, d), Bits(d), Bits(d) - s);
    OrVal(Shl(high, s, d), Shr(low, Bits(d) - s, d), d);
    LeftShiftedOr(Val(high, d), s, Bits(d), Div(Val(low, d), Pow2(Bits(d) - s)));
  }

  lemma ShrByLimbs(x: UInt, s: nat, d: nat)
    requires d > 0 && IsOf(x, d) && Bits(d - 1) <= s < Bits(d)
    requires Val(Shr(x.high, s - Bits(d - 1), d - 1), d - 1) == Div(Val(x.high, d - 1), Pow2(s - Bits(d - 1)))
    ensures Val(Shr(x, s, d), d) == Div(Val(x, d), Pow2(s))
  {
    hide Div, Pow2;
    ValBound(x.low, d - 1);
    RightLarge(Val(x.low, d - 1), Val(x.high, d - 1), Bits(d - 1), s);
    ZeroVal(d - 1);
    BaseIs(d - 1);
  }

  lemma ShrWithin(x: UInt, s: nat, d: nat)
    requires d > 0 && IsOf(x, d) && 0 < s < Bits(d - 1)
    requires Val(Shr(x.low, s, d - 1), d - 1) == Div(Val(x.low, d - 1), Pow2(s))
    requires Val(Shr(x.high, s, d - 1), d - 1) == Div(Val(x.high, d - 1), Pow2(s))
    requires Val(Shl(x.high, Bits(d - 1) - s, d - 1), d - 1)
      == LeftShifted(Val(x.high, d - 1), Bits(d - 1) - s, Bits(d - 1))
    ensures Val(Shr(x, s, d), d) == Div(Val(x, d), Pow2(s))
  {
    hide Div, Pow2, LeftShifted, Or;
    var joined := Or(Shr(x.low, s, d - 1), Shl(x.high, Bits(d - 1) - s, d - 1), d - 1);
    assert Shr(x, s, d) == Big(joined, Shr(x.high, s, d - 1));
    hide Shr, Shl;
    ShrJoined(x.low, x.high, s, d - 1);
    RightSmall(Val(x.low, d - 1), Val(x.high, d - 1), Bits(d - 1), s);
    BaseIs(d - 1);
  }

  lemma QuotientVanishes(x: nat, n: nat, s: nat)
    requires x < Pow2(n) && n <= s
    ensures Div(x, Pow2(s)) == 0
  {
    hide Div, Mod;
    Pow2Monotone(n, s);
    DivModIs(x, Pow2(s), 0, x);
  }

  lemma ShrBeyond(x: UInt, s: nat, d: nat)
    requires d > 0 && IsOf(x, d) && s >= Bits(d)
    ensures Val(Shr(x, s, d), d) == Div(Val(x, d), Pow2(s))
  {
    hide Div, Pow2, Base, Val, Shl;
    ZeroVal(d);
    ValBound(x, d);
    BaseIs(d);
    QuotientVanishes(Val(x, d), Bits(d), s);
  }

  lemma ShiftsByNothing(x: UInt, d: nat)
    requires d > 0 && IsOf(x, d)
    ensures Val(Shr(x, 0, d), d) == Div(Val(x, d), Pow2(0))
    ensures Val(Shl(x, 0, d), d) == LeftShifted(Val(x, d), 0, Bits(d))
  {
    hide Div, Base, Val, LeftShifted;
    RightByZero(Val(x, d));
    ValBound(x, d);
    BaseIs(d);
    LeftByZero(Val(x, d), Bits(d));
  }

  /** `>>` divides by the power of two, at every width. */
  lemma ShrVal(x: UInt, s: nat, d: nat)
    requires IsOf(x, d) && (d == 0 ==> s < 64)
    ensures Val(Shr(x, s, d), d) == Div(Val(x, d), Pow2(s))
    decreases d
  {
    hide Div, Pow2, LeftShifted, Or, Base, Val, Shr, Shl;
    if d == 0 {
      ShrWordVal(x, s);
    } else if s >= Bits(d) {
      ShrBeyond(x, s, d);
    } else if s >= Bits(d - 1) {
      ShrVal(x.high, s - Bits(d - 1), d - 1);
      ShrByLimbs(x, s, d);
    } else if s == 0 {
      ShiftsByNothing(x, d);
    } else {
      ShrVal(x.low, s, d - 1);
      ShrVal(x.high, s, d - 1);
      ShlVal(x.high, Bits(d - 1) - s, d - 1);
      ShrWithin(x, s, d);
    }
  }

  lemma ShrWordVal(x: UInt, s: nat)
    requires IsOf(x, 0) && s < 64
    ensures Val(Shr(x, s, 0), 0) == Div(Val(x, 0), Pow2(s))
  {
    hide Div, Pow2;
  }
}
