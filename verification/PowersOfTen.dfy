/**
 128-bit mantissas stepped by 10 and by 0.1, rounded to 96 bits, and how far any number
 of steps can drift from the exact power of ten.
 */
module PowersOfTen {
  import opened Powers
  import opened Words

  const R96: nat := 0x1_0000_0000_0000_0000_0000_0000
  const R128: nat := 0x1_0000_0000_0000_0000_0000_0000_0000_0000
  const TOP: nat := 0x8000_0000_0000_0000_0000_0000_0000_0000

  datatype U128 = U128(hi: Word, lo: Word) {
    function Val(): (v: int)
      ensures 0 <= v < R128
    {
      hi * R64 + lo
    }
  }

  datatype U96 = U96(hi: Word, lo: Word32) {
    function Val(): (v: int)
      ensures 0 <= v < R96
    {
      hi * R32 + lo
    }
  }

  predicate Normal(v: int) { TOP <= v < R128 }

  lemma U128Parts(v: U128)
    ensures v.hi == v.Val() / R64 && v.lo == v.Val() % R64
  {
    DivModUnique(v.Val(), R64, v.hi, v.lo);
  }

  // ----- Word helpers -----

  function Umul96(x: Word, y: Word32, bias: Word32): (Word, Word)
  {
    var lower := Add64(Mul64(Lo32(x), y), bias);
    var higher := Add64(Mul64(Hi32(x), y), Hi32(lower));
    Make64Joins(Lo32(higher), Lo32(lower));
    (Hi32(higher), Make64(Lo32(higher), Lo32(lower)))
  }

  lemma Umul96Exact(x: Word, y: Word32, bias: Word32)
    ensures var (hi, lo) := Umul96(x, y, bias);
      x * y + bias == hi * R64 + lo && hi < R32
  {
    HalfProduct64(Lo32(x), y, bias);
    var lower := Add64(Mul64(Lo32(x), y), bias);
    HalfProduct64(Hi32(x), y, Hi32(lower));
    var higher := Add64(Mul64(Hi32(x), y), Hi32(lower));
    Make64Joins(Lo32(higher), Lo32(lower));
    OneDigit(R32, Hi32(x), Lo32(x), y, bias, Hi32(lower), Lo32(lower), Hi32(higher), Lo32(higher));
  }

  /** A two-digit number times one digit, the carries named. */
  lemma OneDigit(r: int, x1: int, x0: int, y: int, bias: int, c: int, low: int, hi: int, mid: int)
    requires x0 * y + bias == c * r + low
    requires x1 * y + c == hi * r + mid
    ensures (x1 * r + x0) * y + bias == hi * (r * r) + (mid * r + low)
  {
    assert (x1 * r + x0) * y == (x1 * y) * r + x0 * y;
    assert (x1 * y) * r == (hi * r + mid - c) * r;
  }

  /** The sum and the carry out; the source compares the wrapped sums. */
  function Add64Carry(a: Word, b0: Word, carry: Word): (Word, Word)
  {
    var b := Add64(b0, carry);
    var c := Add64(a, b);
    (c, if c < b || b < carry then 1 else 0)
  }

  lemma Add64CarryExact(a: Word, b: Word, carry: Word)
    requires carry <= 1
    ensures var (c, out) := Add64Carry(a, b, carry);
      a + b + carry == out * R64 + c && out <= 1
  {
  }

  // ----- One step by ten -----

  /** The mantissa and the shift after one step by ten, on values. */
  function TenShift(v: nat): nat { if 10 * v >= 8 * R128 then 4 else 3 }

  function TenStep(v: nat): nat { if 10 * v >= 8 * R128 then 10 * v / 16 else 10 * v / 8 }

  lemma JoinSmall(w: Word, above: Word, shift: nat)
    requires shift == 3 || shift == 4
    ensures var p, out := if shift == 3 then 8 else 16, BitOr(Shr(w, shift), Shl64(above, 64 - shift));
      out < R64 && out * p + w % p == w + (above % p) * R64
  {
    assert Pow(2, 3) == 8 && Pow(2, 4) == 16;
    RightLimb(w, above, shift);
  }

  lemma JoinedQuotient(h: int, l: int, hi: nat, mid: nat, lo: nat, p: int)
    requires p == 8 || p == 16
    requires l * p + lo % p == lo + (mid % p) * R64 && h * p + mid % p == mid + (hi % p) * R64 && hi < p
    ensures h * R64 + l == (hi * R128 + mid * R64 + lo) / p
  {
    if p == 8 {
    } else {
    }
  }

  /** The three words high, mid, low shifted right together by three or four bits. */
  lemma ShiftDown(hi: Word, mid: Word, lo: Word, shift: nat)
    requires (shift == 3 && hi < 8) || (shift == 4 && hi < 16)
    ensures var l, h := BitOr(Shr(lo, shift), Shl64(mid, 64 - shift)), BitOr(Shr(mid, shift), Shl64(hi, 64 - shift));
      l < R64 && h < R64
      && h * R64 + l == (hi * R128 + mid * R64 + lo) / (if shift == 3 then 8 else 16)
  {
    hide BitOr, Shl64, Shr;
    JoinSmall(lo, mid, shift);
    JoinSmall(mid, hi, shift);
    JoinedQuotient(BitOr(Shr(mid, shift), Shl64(hi, 64 - shift)), BitOr(Shr(lo, shift), Shl64(mid, 64 - shift)),
                   hi, mid, lo, if shift == 3 then 8 else 16);
  }

  lemma TenWords(v: nat, higher: Word, hi: Word, lo: Word)
    requires v < R128 && 10 * v == higher * R128 + hi * R64 + lo
    ensures higher < 10
    ensures TenShift(v) == if higher >= 8 then 4 else 3
    ensures TenStep(v) == (higher * R128 + hi * R64 + lo) / (if higher >= 8 then 16 else 8)
  {
  }

  method Uint128MultiplyBy10(v: U128, exp0: int) returns (result: U128, exp: int)
    ensures result.Val() == TenStep(v.Val()) && exp == exp0 + TenShift(v.Val())
  {
    hide Umul96, BitOr, Shl64, Shr, TenStep, TenShift;
    var t := Umul96(v.lo, 10, 0);
    Umul96Exact(v.lo, 10, 0);
    var lo := t.1;
    Umul96Exact(v.hi, 10, Lo32(t.0));
    t := Umul96(v.hi, 10, Lo32(t.0));
    var higher := Lo32(t.0);
    var hi := t.1;
    TenWords(v.Val(), higher, hi, lo);
    var shift := if higher >= 8 then 4 else 3;
    exp := exp0 + shift;
    ShiftDown(higher, hi, lo, shift);
    result := U128(BitOr(Shr(hi, shift), Shl64(higher, 64 - shift)), BitOr(Shr(lo, shift), Shl64(hi, 64 - shift)));
  }

  // ----- One step by one tenth -----

  const TENTH: nat := 0xcccc_cccc_cccc_cccc

  /** The 256-bit product of v and 0.8, in units of 2^-128: the four words the source adds up. */
  function TenthProduct(v: nat): nat { (v * TENTH + v % R64) * (R64 + 1) }

  function TenthShift(v: nat): nat { if TenthProduct(v) / R128 >= TOP then 3 else 4 }

  function TenthStep(v: nat): nat
  {
    if TenthShift(v) == 3 then TenthProduct(v) / R128 else 2 * TenthProduct(v) / R128
  }

  /** 0.8 is not representable; the product misses it by a known amount. */
  lemma TenthProductError(v: nat)
    requires v < R128
    ensures 5 * TenthProduct(v) == 4 * v * R128 - 4 * v + 5 * (v % R64) * (R64 + 1)
    ensures 0 <= 5 * (v % R64) * (R64 + 1) < 5 * R128
  {
    var lo := v % R64;
    assert 5 * (v * TENTH + lo) == v * (4 * R64 - 4) + 5 * lo;
  }

  /** One step is within 26 parts of a tenth, scaled by 2^s, and stays normalised. */
  lemma TenthStepError(v: nat)
    requires Normal(v)
    ensures TenthShift(v) == 3 ==> -18 < 10 * TenthStep(v) - 8 * v < 6
    ensures TenthShift(v) == 4 ==> -26 < 10 * TenthStep(v) - 16 * v < 12
    ensures Normal(TenthStep(v))
  {
    hide TenthProduct;
    TenthProductError(v);
  }

  /** The three additions with carry: the last carry is never set. */
  lemma TenthCarries(v: U128, l: (Word, Word), t: (Word, Word), a: (Word, Word), b: (Word, Word), c: (Word, Word))
    requires v.lo * (TENTH + 1) == l.0 * R64 + l.1
    requires v.hi * TENTH + l.0 == t.0 * R64 + t.1
    requires a.1 <= 1 && b.1 <= 1 && c.1 <= 1
    requires t.1 + l.1 == a.1 * R64 + a.0
    requires t.0 + t.1 + a.1 == b.1 * R64 + b.0
    requires t.0 + b.1 == c.1 * R64 + c.0
    ensures c.1 == 0
    ensures TenthProduct(v.Val()) == (c.0 * R64 + b.0) * R128 + a.0 * R64 + l.1
  {
    assert v.hi * TENTH <= (R64 - 1) * TENTH;
    U128Parts(v);
    assert v.Val() * TENTH + v.lo == t.0 * R128 + t.1 * R64 + l.1;
  }

  method Uint128MultiplyBy0_1(v: U128, exp0: int) returns (result: U128, exp: int)
    ensures result.Val() == TenthStep(v.Val()) && exp == exp0 - TenthShift(v.Val())
  {
    hide Umul128, TenthProduct, TenthShift, TenthStep, Add64Carry, BitOr, Shl64, Shr;
    Umul128Exact(v.lo, TENTH + 1, 0);
    var l := Umul128(v.lo, 0xcccccccccccccccd, 0);
    Umul128Exact(v.hi, TENTH, l.0);
    var t := Umul128(v.hi, 0xcccccccccccccccc, l.0);
    Add64CarryExact(t.1, l.1, 0);
    var a := Add64Carry(t.1, l.1, 0);
    Add64CarryExact(t.0, t.1, a.1);
    var b := Add64Carry(t.0, t.1, a.1);
    Add64CarryExact(0, t.0, b.1);
    var c := Add64Carry(0, t.0, b.1);
    TenthCarries(v, l, t, a, b, c);
    TenthResult(v.Val(), c.0, b.0, a.0, l.1);
    result := U128(c.0, b.0);
    exp := exp0 - 3;
    if result.hi < 0x8000_0000_0000_0000 {
      DoubleIn(b.0, a.0);
      DoubleIn(c.0, b.0);
      result := U128(BitOr(Shl64(result.hi, 1), Shr(result.lo, 63)), BitOr(Shl64(result.lo, 1), Shr(a.0, 63)));
      exp := exp - 1;
    }
  }

  /** Shift left by one, the gap filled with the top bit of the next word. */
  lemma DoubleIn(w: Word, next: Word)
    ensures Shr(next, 63) == next / 0x8000_0000_0000_0000
    ensures BitOr(Shl64(w, 1), Shr(next, 63)) == 2 * w % R64 + next / 0x8000_0000_0000_0000 < R64
  {
    hide BitOr, Pow;
    Pow2At63();
    OrDisjoint(w % 0x8000_0000_0000_0000, 1, next / 0x8000_0000_0000_0000);
  }

  lemma Pow2At63()
    ensures Pow(2, 1) == 2 && Pow(2, 63) == 0x8000_0000_0000_0000
  {
    assert Pow(2, 7) == 0x80;
    PowAdd(2, 7, 7);
    PowAdd(2, 14, 7);
    PowAdd(2, 21, 21);
    PowAdd(2, 42, 21);
  }

  /** What the branch on the top bit leaves, read off the four words of the product. */
  lemma TenthResult(v: nat, w3: Word, w2: Word, w1: Word, w0: Word)
    requires TenthProduct(v) == (w3 * R64 + w2) * R128 + w1 * R64 + w0
    ensures TenthShift(v) == if w3 >= 0x8000_0000_0000_0000 then 3 else 4
    ensures var half := 0x8000_0000_0000_0000;
      TenthStep(v) == if w3 >= half then w3 * R64 + w2
                      else (2 * w3 % R64 + w2 / half) * R64 + (2 * w2 % R64 + w1 / half)
  {
    hide TenthProduct;
    var half := 0x8000_0000_0000_0000;
    DivModUnique(TenthProduct(v), R128, w3 * R64 + w2, w1 * R64 + w0);
    DivModUnique(2 * TenthProduct(v), R128, (2 * w3 + w2 / half) * R64 + 2 * w2 % R64 + w1 / half,
                 (w1 % half) * (2 * R64) + 2 * w0);
  }

  // ----- Rounding to 96 bits -----

  function FpM96(v: U128): U96
  {
    var (lower, carry) := Add64Carry(v.lo, 0x8000_0000, 0);
    U96(Add64(v.hi, carry), Hi32(lower))
  }

  /** Rounded half up; the top limb wraps to zero when the rounding carries out of it. */
  function Rounded96(v: nat): (r: nat)
    ensures r < R96
  {
    ((v + 0x8000_0000) / R32) % R96
  }

  lemma FpM96Rounds(v: U128)
    ensures FpM96(v).Val() == Rounded96(v.Val())
  {
    hide Add64Carry;
    Add64CarryExact(v.lo, 0x8000_0000, 0);
    var (lower, carry) := Add64Carry(v.lo, 0x8000_0000, 0);
    DivModUnique(v.Val() + 0x8000_0000, R32, (v.hi + carry) * R32 + Hi32(lower), Lo32(lower));
    DivModUnique((v.hi + carry) * R32 + Hi32(lower), R96, (v.hi + carry) / R64,
                 ((v.hi + carry) % R64) * R32 + Hi32(lower));
  }

  // ----- Any number of steps -----

  /** Mantissas are normalised between 2^127 and 2^128. */
  lemma TopIs()
    ensures Pow(2, 127) == TOP && Pow(2, 128) == R128
  {
    hide Pow;
    Pow2At63();
    Pow2At64();
    PowAdd(2, 63, 64);
    PowAdd(2, 64, 64);
  }

  datatype Float = Float(mant: nat, exp: int)

  /** The mantissa and exponent after n steps by ten from 2^127. */
  ghost function Up(n: nat): Float
  {
    if n == 0 then Float(TOP, 0)
    else var p := Up(n - 1); Float(TenStep(p.mant), p.exp + TenShift(p.mant))
  }

  /** The mantissa and exponent after n steps by one tenth from 2^127. */
  ghost function Down(n: nat): Float
  {
    if n == 0 then Float(TOP, 0)
    else var p := Down(n - 1); Float(TenthStep(p.mant), p.exp - TenthShift(p.mant))
  }

  lemma TenStepExact(v: nat)
    requires Normal(v)
    ensures Normal(TenStep(v))
    ensures var s := if TenShift(v) == 4 then 16 else 8;
      10 * v - s < s * TenStep(v) <= 10 * v
  {
  }

  /** Truncation by the step by ten loses at most one unit of 10^n each time. */
  lemma {:induction false} UpDrift(n: nat)
    ensures Normal(Up(n).mant) && 0 <= Up(n).exp
    ensures var scaled := Up(n).mant * Pow(2, Up(n).exp);
      Pow(10, n) * (TOP - n) <= scaled <= Pow(10, n) * TOP
  {
    if n != 0 {
      hide Pow;
      UpDrift(n - 1);
      var p := Up(n - 1);
      TenStepExact(p.mant);
      var s := if TenShift(p.mant) == 4 then 16 else 8;
      PowStep(10, n - 1);
      EightOrSixteen(p.exp);
      UpDriftStep(p.mant, Up(n).mant, s, Pow(2, p.exp), Pow(10, n - 1), n - 1, TOP);
    } else {
      assert Pow(2, 0) == 1 && Pow(10, 0) == 1;
    }
  }

  lemma EightOrSixteen(e: nat)
    ensures 0 < Pow(2, e)
    ensures Pow(2, e + 3) == 8 * Pow(2, e) && Pow(2, e + 4) == 16 * Pow(2, e)
  {
    PowPositive(2, e);
    PowStep(2, e);
    PowStep(2, e + 1);
    PowStep(2, e + 2);
    PowStep(2, e + 3);
  }

  lemma UpDriftStep(m: int, m': int, s: int, e: int, p: int, n: int, t: int)
    requires 0 < e && 0 < s && 0 < t <= m' && 10 * m - s < s * m' <= 10 * m
    requires p * (t - n) <= m * e <= p * t
    ensures 10 * p * (t - (n + 1)) <= m' * (s * e) <= 10 * p * t
  {
    assert m' * (s * e) == (s * m') * e;
    MulMonotone(e, s * m', 10 * m);
    MulMonotone(e, 10 * m - s, s * m');
    MulMonotone(s * e, t, m');
    MulCancel(t, s * e, 10 * p);
  }

  /** Beyond this many steps the drift of the step by a tenth is no longer known to stay linear. */
  const STEPS: nat := TOP / 9

  ghost predicate DownWithin(p: Float, n: nat)
  {
    && Normal(p.mant)
    && p.exp <= 0
    && var scale := Pow(2, -p.exp);
      -(3 * n * scale) <= Pow(10, n) * p.mant - TOP * scale <= 3 * n * scale
  }

  /** After n steps by a tenth the scaled mantissa is within 3n units of the exact power. */
  lemma {:induction false} DownDrift(n: nat)
    requires n <= STEPS
    ensures DownWithin(Down(n), n)
  {
    if n != 0 {
      hide DownWithin, TenthStep, TenthShift;
      DownDrift(n - 1);
      DownDriftNext(Down(n - 1), n - 1);
    } else {
      assert Pow(2, 0) == 1 && Pow(10, 0) == 1;
    }
  }

  lemma DownDriftNext(p: Float, n: nat)
    requires n < STEPS && DownWithin(p, n)
    ensures DownWithin(Float(TenthStep(p.mant), p.exp - TenthShift(p.mant)), n + 1)
  {
    hide Pow, TenthStep;
    TenthStepError(p.mant);
    PowStep(10, n);
    PowPositive(10, n);
    EightOrSixteen(-p.exp);
    var s := if TenthShift(p.mant) == 4 then 16 else 8;
    DownDriftStep(p.mant, TenthStep(p.mant), s, Pow(2, -p.exp), Pow(10, n), n, TOP);
    assert Pow(2, -p.exp + TenthShift(p.mant)) == s * Pow(2, -p.exp);
  }

  lemma DecimalBelowBinary(m: int, e: int, p: int, n: int, t: int)
    requires 0 < e && 0 < p && 9 * n <= t <= m && 0 < t
    requires p * m - t * e <= 3 * n * e
    ensures 3 * p <= 4 * e
  {
    MulMonotone(p, t, m);
    MulMonotone(e, 9 * n, t);
    assert t * (3 * p) <= t * (4 * e);
    MulCancel(t, 3 * p, 4 * e);
  }

  lemma WithinScaled(a: int, x: int, bound: int)
    requires 0 <= a && -bound <= x <= bound
    ensures -(a * bound) <= a * x <= a * bound
  {
    MulMonotone(a, x, bound);
    MulMonotone(a, -bound, x);
  }

  lemma DownDriftStep(m: int, m': int, s: int, e: int, p: int, n: int, t: int)
    requires 0 < e && 0 < p && 0 <= n && 9 * n <= t <= m && 0 < t
    requires (s == 8 && -18 < 10 * m' - 8 * m < 18) || (s == 16 && -26 < 10 * m' - 16 * m < 26)
    requires -(3 * n * e) <= p * m - t * e <= 3 * n * e
    ensures -(3 * (n + 1) * (s * e)) <= 10 * p * m' - t * (s * e) <= 3 * (n + 1) * (s * e)
  {
    DecimalBelowBinary(m, e, p, n, t);
    var x, d := p * m - t * e, 10 * m' - s * m;
    WithinScaled(s, x, 3 * n * e);
    WithinScaled(p, d, if s == 8 then 18 else 26);
    DownDriftSum(m, m', s, e, p, n, t);
  }

  lemma DownDriftSum(m: int, m': int, s: int, e: int, p: int, n: int, t: int)
    ensures 10 * p * m' - t * (s * e) == s * (p * m - t * e) + p * (10 * m' - s * m)
    ensures 3 * (n + 1) * (s * e) == s * (3 * n * e) + 3 * (s * e)
  {
  }
}
