/**
 The table of 96-bit powers of ten and the check that keeping every eighth entry is enough:
 the others are rebuilt from the nearest lower one by a single multiplication.
 */
module ThinnedTable {
  import opened Powers
  import opened Words
  import opened PowersOfTen

  /** Exponents up to this distance are covered; the program uses 344. */
  const LIMIT: int := 5_000_000

  /** What the drift of both entries can add up to, in units of the mantissa. */
  const GAP: int := 0x5ff_ffff
  const ROUND: int := 0x8000_0000

  /** 10^1 .. 10^7, their bit lengths, and the same powers as normalised 32-bit words. */
  const TENS: seq<nat> := [10, 100, 1000, 10000, 100000, 1000000, 10000000]
  const BITS: seq<nat> := [4, 7, 10, 14, 17, 20, 24]
  const MUL10: seq<Word32> := [0xa0000000, 0xc8000000, 0xfa000000, 0x9c400000, 0xc3500000, 0xf4240000, 0x98968000]

  ghost function Entry(n: int): Float { if n >= 0 then Up(n) else Down(-n) }

  ghost function Coef(n: int): nat { Rounded96(Entry(n).mant) }

  // ----- Filling the table -----

  ghost predicate Tabulated(m: seq<U96>, exps: seq<int>, max: int, n: int)
    requires |m| == |exps| == 2 * max + 1 && -max <= n <= max
  {
    m[max + n].Val() == Coef(n) && exps[max + n] == Entry(n).exp
  }

  method BuildCoefTable(m: array<U96>, exps: array<int>, max: int)
    requires 0 <= max && m.Length == exps.Length == 2 * max + 1 && m as object != exps as object
    modifies m, exps
    ensures forall n :: -max <= n <= max ==> Tabulated(m[..], exps[..], max, n)
  {
    hide TenStep, TenShift, TenthStep, TenthShift, Rounded96;
    var exp := 0;
    var v := U128(0x8000_0000_0000_0000, 0);
    m[max], exps[max] := U96(0x8000_0000_0000_0000, 0), 0;
    TopRounds();
    for n := 0 to max
      invariant v.Val() == Up(n).mant && exp == Up(n).exp
      invariant forall i :: max <= i <= max + n ==> m[i].Val() == Coef(i - max) && exps[i] == Entry(i - max).exp
    {
      v, exp := Uint128MultiplyBy10(v, exp);
      FpM96Rounds(v);
      m[max + n + 1] := FpM96(v);
      exps[max + n + 1] := exp;
    }
    exp, v := 0, U128(0x8000_0000_0000_0000, 0);
    for n := 0 to max
      invariant v.Val() == Down(n).mant && exp == Down(n).exp
      invariant forall i :: max - n <= i < 2 * max + 1 ==> m[i].Val() == Coef(i - max) && exps[i] == Entry(i - max).exp
    {
      v, exp := Uint128MultiplyBy0_1(v, exp);
      FpM96Rounds(v);
      m[max - n - 1] := FpM96(v);
      exps[max - n - 1] := exp;
    }
  }

  lemma TopRounds()
    ensures U96(0x8000_0000_0000_0000, 0).Val() == Coef(0)
  {
  }

  // ----- Rebuilding one entry -----

  function Umul96x32(x: U96, y: Word32): (Word, Word)
  {
    var lower := Mul64(x.lo, y);
    var mid := Add64(Mul64(Lo32(x.hi), y), Hi32(lower));
    Make64Joins(Lo32(mid), Lo32(lower));
    (Add64(Mul64(Hi32(x.hi), y), Hi32(mid)), Make64(Lo32(mid), Lo32(lower)))
  }

  lemma Umul96x32Exact(x: U96, y: Word32)
    ensures var (hi, lo) := Umul96x32(x, y);
      x.Val() * y == hi * R64 + lo
  {
    HalfProduct64(x.lo, y, 0);
    var lower := Mul64(x.lo, y);
    HalfProduct64(Lo32(x.hi), y, Hi32(lower));
    var mid := Add64(Mul64(Lo32(x.hi), y), Hi32(lower));
    HalfProduct64(Hi32(x.hi), y, Hi32(mid));
    var high := Add64(Mul64(Hi32(x.hi), y), Hi32(mid));
    Make64Joins(Lo32(mid), Lo32(lower));
    ThreeDigits(R32, Hi32(x.hi), Lo32(x.hi), x.lo, y, Hi32(lower), Lo32(lower), Hi32(mid), Lo32(mid), high);
  }

  lemma ThreeDigits(r: int, x2: int, x1: int, x0: int, y: int, c: int, low: int, d: int, mid: int, high: int)
    requires x0 * y == c * r + low
    requires x1 * y + c == d * r + mid
    requires x2 * y + d == high
    ensures ((x2 * r + x1) * r + x0) * y == high * (r * r) + (mid * r + low)
  {
    assert ((x2 * r + x1) * r + x0) * y == (x2 * y) * (r * r) + (x1 * y) * r + x0 * y;
    assert (x2 * y) * (r * r) == high * (r * r) - (d * r) * r;
    assert (x1 * y) * r == (d * r + mid - c) * r;
  }

  /** The 128-bit product, doubled when its top bit is clear. */
  function Wide(base: nat, mul: nat): nat
  {
    if base * mul < TOP then 2 * (base * mul) else base * mul
  }

  /** Line by line what the check computes from the wide product, with the 64-bit wrap of the rounding. */
  function RebuiltHi(wide: nat): nat { wide / R64 }

  function RebuiltLo(wide: nat): nat { (wide % R64 + ROUND) % R64 / R32 }

  /** The two words of the wide product, before and after the normalising shift. */
  lemma WideWords(base: nat, mul: nat, hi: Word, t: Word)
    requires base * mul == hi * R64 + t
    ensures var half := 0x8000_0000_0000_0000;
      Wide(base, mul) == if hi < half then (2 * hi + t / half) * R64 + 2 * t % R64 else hi * R64 + t
  {
  }

  lemma RebuiltWords(hi: Word, t: Word)
    ensures RebuiltHi(hi * R64 + t) == hi && RebuiltLo(hi * R64 + t) == Hi32(Add64(t, 0x8000_0000))
  {
  }

  method Rebuild(base: U96, mul: Word32) returns (result: U96)
    ensures result.hi == RebuiltHi(Wide(base.Val(), mul)) && result.lo == RebuiltLo(Wide(base.Val(), mul))
  {
    hide Umul96x32, BitOr, Shl64, Shr, U96.Val, Wide, RebuiltHi, RebuiltLo;
    Umul96x32Exact(base, mul);
    var r := Umul96x32(base, mul);
    var hi, t := r.0, r.1;
    WideWords(base.Val(), mul, hi, t);
    if hi < 0x8000_0000_0000_0000 {
      DoubleIn(hi, t);
      DoubleIn(t, 0);
      OrZero(Shl64(t, 1));
      hi := BitOr(Shl64(hi, 1), Shr(t, 63));
      t := Shl64(t, 1);
    }
    assert Wide(base.Val(), mul) == hi * R64 + t;
    RebuiltWords(hi, t);
    result := U96(hi, Hi32(Add64(t, 0x8000_0000)));
  }

  // ----- How far apart two entries j steps apart are -----

  /** vn at scale k and 10^j * vb agree up to the drift of both. */
  ghost predicate Apart(vn: int, vb: int, t: int, k: int)
  {
    -(k * GAP) <= k * vn - t * vb <= k * GAP
  }

  lemma CancelBound(e: int, x: int, bound: int)
    requires 0 < e && -(e * bound) <= e * x <= e * bound
    ensures -bound <= x <= bound
  {
    MulCancel(e, x, bound);
    MulCancel(e, -bound, x);
  }

  /** Two values close to the same w, from below, with the exact power w bounded by the scale f. */
  lemma UpGapScaled(vn: int, f: int, y: int, w: int, n: int, b: int, top: int)
    requires 0 < f && 0 < w && 0 <= b <= n && 3 * n <= top && 0 < top && vn < 2 * top
    requires w * (top - n) <= vn * f <= w * top
    requires w * (top - b) <= y <= w * top
    ensures -(f * (3 * n)) <= vn * f - y <= f * (3 * n)
  {
    assert w <= 3 * f by {
      MulMonotone(w, 2 * top, 3 * (top - n));
      MulMonotone(f, vn, 2 * top);
      assert top * w <= top * (3 * f);
      MulCancel(top, w, 3 * f);
    }
    MulMonotone(n, w, 3 * f);
    MulMonotone(w, b, n);
  }

  lemma UpGap(vn: int, vb: int, t: int, p: int, e: int, k: int, n: int, b: int, top: int)
    requires 0 < p && 0 < t && 0 < e && 0 < k && 0 <= b <= n && 3 * n <= top && 0 < top && vn < 2 * top
    requires t * p * (top - n) <= vn * (k * e) <= t * p * top
    requires p * (top - b) <= vb * e <= p * top
    ensures -(k * (3 * n)) <= k * vn - t * vb <= k * (3 * n)
  {
    MulMonotone(t, p * (top - b), vb * e);
    MulMonotone(t, vb * e, p * top);
    MulAssoc(t, p, top - b);
    MulAssoc(t, p, top);
    MulPositive(t, p);
    MulPositive(k, e);
    UpGapScaled(vn, k * e, t * (vb * e), t * p, n, b, top);
    UpGapUnscaled(vn, vb, t, e, k, 3 * n);
    CancelBound(e, k * vn - t * vb, k * (3 * n));
  }

  lemma MulPositive(a: int, b: int)
    requires 0 < a && 0 < b
    ensures 0 < a * b
  {
  }

  lemma UpGapUnscaled(vn: int, vb: int, t: int, e: int, k: int, bound: int)
    ensures vn * (k * e) - t * (vb * e) == e * (k * vn - t * vb)
    ensures (k * e) * bound == e * (k * bound)
  {
  }

  lemma DownGapScaled(d: int, y: int, f: int, g: int, n: int, b: int, k: int)
    requires 0 < f && 0 < k && 0 <= n <= b
    requires -(3 * n * f) <= d <= 3 * n * f
    requires g == k * f && -(3 * b * g) <= y <= 3 * b * g
    ensures -(g * (6 * b)) <= k * d - y <= g * (6 * b)
  {
    MulMonotone(k, d, 3 * n * f);
    MulMonotone(k, -(3 * n * f), d);
    assert k * (3 * n * f) == 3 * n * g;
    MulPositive(k, f);
    MulMonotone(g, n, b);
  }

  lemma BinaryBelowDecimal(vn: int, p: int, e: int, n: int, top: int)
    requires 0 < p && 0 < e && 9 * n <= top && 0 < top && vn < 2 * top
    requires -(3 * n * e) <= p * vn - top * e
    ensures e <= 3 * p
  {
    MulMonotone(e, 9 * n, top);
    MulMonotone(p, vn, 2 * top);
    assert top * (2 * e) <= top * (6 * p);
    MulCancel(top, 2 * e, 6 * p);
  }

  lemma DownGap(vn: int, vb: int, t: int, p: int, e: int, k: int, n: int, b: int, top: int)
    requires 0 < p && 0 < t && 0 < e && 0 < k && 0 <= n <= b && 9 * b <= top && 0 < top && vn < 2 * top
    requires -(3 * n * e) <= p * vn - top * e <= 3 * n * e
    requires -(3 * b * (k * e)) <= t * p * vb - top * (k * e) <= 3 * b * (k * e)
    ensures -(k * (18 * b)) <= k * vn - t * vb <= k * (18 * b)
  {
    BinaryBelowDecimal(vn, p, e, n, top);
    DownGapScaled(p * vn - top * e, t * p * vb - top * (k * e), e, k * e, n, b, k);
    DownGapUnscaled(vn, vb, t, p, e, k, top);
    DownGapBound(k, e, b, p);
    CancelBound(p, k * vn - t * vb, k * (18 * b));
  }

  lemma DownGapUnscaled(vn: int, vb: int, t: int, p: int, e: int, k: int, top: int)
    ensures k * (p * vn - top * e) - (t * p * vb - top * (k * e)) == p * (k * vn - t * vb)
  {
  }

  lemma DownGapBound(k: int, e: int, b: int, p: int)
    requires 0 < k && 0 <= b && e <= 3 * p
    ensures (k * e) * (6 * b) <= p * (k * (18 * b))
  {
    MulMonotone(k * (6 * b), e, 3 * p);
    assert (k * e) * (6 * b) == k * (6 * b) * e;
  }

  /** n is not a multiple of eight, and base is the nearest lower one. */
  ghost predicate Rebuildable(n: int)
  {
    -LIMIT <= n <= LIMIT && n % 8 != 0
  }

  function Base(n: int): int { n - n % 8 }

  lemma Tens(j: nat)
    requires 1 <= j <= 7
    ensures Pow(10, j) == TENS[j - 1]
  {
    var p: seq<nat> := [1] + TENS;
    assert forall i: nat :: i < 7 ==> p[i + 1] == 10 * p[i];
    TensUpTo(p, j);
  }

  lemma {:induction false} TensUpTo(p: seq<nat>, j: nat)
    requires j < |p| && p[0] == 1 && forall i: nat :: i + 1 < |p| ==> p[i + 1] == 10 * p[i]
    ensures Pow(10, j) == p[j]
  {
    if j != 0 {
      TensUpTo(p, j - 1);
    }
  }

  /** Each step moves the exponent by three or four. */
  lemma {:induction false} ExponentSteps(b: int, j: nat)
    requires 0 <= b || b + j <= 0
    ensures 3 * j <= Entry(b + j).exp - Entry(b).exp <= 4 * j
  {
    hide TenStep, TenthStep, TenShift, TenthShift;
    if j != 0 {
      ExponentSteps(b, j - 1);
      OneExponentStep(b + j - 1);
    }
  }

  lemma OneExponentStep(n: int)
    ensures 3 <= Entry(n + 1).exp - Entry(n).exp <= 4
  {
    hide TenStep, TenthStep;
    if n < 0 {
      var p := Down(-(n + 1));
      assert Down(-n).exp == p.exp - TenthShift(p.mant);
    } else {
      assert Up(n + 1).exp == Up(n).exp + TenShift(Up(n).mant);
    }
  }

  lemma EntryNormal(n: int)
    requires -LIMIT <= n <= LIMIT
    ensures Normal(Entry(n).mant)
  {
    if 0 <= n {
      UpDrift(n);
    } else {
      DownDrift(-n);
    }
  }

  /** An entry and its base agree, at the scale between their exponents, up to the drift of both. */
  lemma EntriesApart(n: int) returns (k: nat)
    requires Rebuildable(n)
    ensures Entry(n).exp - Entry(Base(n)).exp == k
    ensures Apart(Entry(n).mant, Entry(Base(n)).mant, TENS[n % 8 - 1], Pow(2, k))
  {
    hide Apart, Pow, Up, Down;
    var b, j := Base(n), n % 8;
    ExponentSteps(b, j);
    assert b + j == n;
    k := Entry(n).exp - Entry(b).exp;
    if 0 <= n {
      UpApart(b, j, k);
    } else {
      DownApart(-n, j, k);
    }
  }

  lemma UpApart(b: nat, j: nat, k: nat)
    requires 1 <= j <= 7 && b + j <= LIMIT && Up(b + j).exp == Up(b).exp + k
    ensures Apart(Up(b + j).mant, Up(b).mant, TENS[j - 1], Pow(2, k))
  {
    hide Pow, Up;
    var n, e := b + j, Up(b).exp;
    UpDrift(n);
    UpDrift(b);
    PowAdd(10, j, b);
    PowAdd(2, k, e);
    PowPositive(10, b);
    PowPositive(2, e);
    PowPositive(2, k);
    Tens(j);
    UpGap(Up(n).mant, Up(b).mant, TENS[j - 1], Pow(10, b), Pow(2, e), Pow(2, k), n, b, TOP);
    MulMonotone(Pow(2, k), 3 * n, GAP);
  }

  lemma DownApart(n: nat, j: nat, k: nat)
    requires 1 <= j <= 7 && n + j <= LIMIT && Down(n).exp == Down(n + j).exp + k
    ensures Apart(Down(n).mant, Down(n + j).mant, TENS[j - 1], Pow(2, k))
  {
    hide Pow, Down;
    var b, e := n + j, -Down(n).exp;
    DownDrift(n);
    DownDrift(b);
    PowAdd(10, j, n);
    PowAdd(2, k, e);
    PowPositive(10, n);
    PowPositive(2, e);
    PowPositive(2, k);
    Tens(j);
    DownGap(Down(n).mant, Down(b).mant, TENS[j - 1], Pow(10, n), Pow(2, e), Pow(2, k), n, b, TOP);
    MulMonotone(Pow(2, k), 18 * b, GAP);
  }

  // ----- From mantissas to the rebuilt coefficient -----

  /** The rebuilt wide value carries the base at this scale. */
  ghost function RebuiltScale(j: nat, base: nat): nat
    requires 1 <= j <= 7
  {
    if base * MUL10[j - 1] < TOP then BITS[j - 1] - 1 else BITS[j - 1]
  }

  lemma TableExact(j: nat)
    requires 1 <= j <= 7
    ensures MUL10[j - 1] * Pow(2, BITS[j - 1]) == TENS[j - 1] * R32
    ensures Pow(2, BITS[j - 1]) == 2 * Pow(2, BITS[j - 1] - 1)
    ensures 0x9000_0000 <= MUL10[j - 1] <= 0xfa00_0000 && TENS[j - 1] <= 10000000
    ensures TENS[j - 1] % 5 == 0
  {
    assert Pow(2, 4) == 16 && Pow(2, 7) == 128;
    PowAdd(2, 3, 7);
    PowAdd(2, 7, 7);
    PowAdd(2, 10, 7);
    PowAdd(2, 10, 10);
    PowAdd(2, 10, 14);
  }

  /** Scaled back, the wide value is the base coefficient times 10^j, exactly. */
  lemma WideExact(j: nat, base: nat)
    requires 1 <= j <= 7
    ensures Pow(2, RebuiltScale(j, base)) * Wide(base, MUL10[j - 1]) == TENS[j - 1] * (R32 * base)
    ensures TENS[j - 1] * ROUND <= Pow(2, RebuiltScale(j, base)) * 0xfa00_0000
    ensures 0 < Pow(2, RebuiltScale(j, base))
  {
    TableExact(j);
    PowPositive(2, BITS[j - 1] - 1);
    var h, mul, t := Pow(2, BITS[j - 1] - 1), MUL10[j - 1], TENS[j - 1];
    WideScaled(h, mul, t, base);
    MulMonotone(h, mul, 0xfa00_0000);
  }

  lemma WideScaled(h: int, mul: int, t: int, base: int)
    requires mul * (2 * h) == t * R32
    ensures h * (2 * (base * mul)) == t * (R32 * base) == 2 * h * (base * mul)
  {
    assert h * (2 * (base * mul)) == base * (mul * (2 * h));
  }

  lemma WideRange(base: nat, mul: nat)
    requires base < R96 && mul <= 0xfa00_0000
    ensures 0 <= Wide(base, mul) < R128
    ensures base == 0 ==> Wide(base, mul) == 0
    ensures R96 / 2 <= base && 0x9000_0000 <= mul ==> TOP <= Wide(base, mul)
  {
    MulMonotone(base, mul, 0xfa00_0000);
    if R96 / 2 <= base && 0x9000_0000 <= mul {
      MulMonotone(base, 0x9000_0000, mul);
    }
  }

  /** Rebuilt and direct mantissa agree at their own scales, up to rounding and drift. */
  lemma ScalesAgree(vn: int, vb: int, base: int, t: int, k: int, kr: int, wide: int)
    requires 0 < t && kr * wide == t * (R32 * base) && t * ROUND <= kr * 0xfa00_0000
    requires -ROUND <= R32 * base - vb <= ROUND
    requires Apart(vn, vb, t, k)
    ensures -(kr * 0xfa00_0000 + k * GAP) <= kr * wide - k * vn <= kr * 0xfa00_0000 + k * GAP
  {
    MulMonotone(t, R32 * base - vb, ROUND);
    MulMonotone(t, -ROUND, R32 * base - vb);
    assert t * (R32 * base - vb) == t * (R32 * base) - t * vb;
  }

  lemma SameScaleNear(vn: int, k: int, wide: int)
    requires 0 < k
    requires -(k * 0xfa00_0000 + k * GAP) <= k * wide - k * vn <= k * 0xfa00_0000 + k * GAP
    ensures wide - vn < R32 && vn - wide < R32
  {
    assert k * (wide - vn) == k * wide - k * vn;
    CancelBound(k, wide - vn, 0xfa00_0000 + GAP);
  }

  lemma LargerScaleFar(vn: int, k: int, kr: int, wide: int)
    requires 0 < kr && 2 * kr <= k && GAP <= vn
    requires k * vn <= kr * wide + kr * 0xfa00_0000 + k * GAP
    ensures 2 * (vn - GAP) <= wide + 0xfa00_0000
  {
    MulMonotone(vn - GAP, 2 * kr, k);
    assert k * (vn - GAP) == k * vn - k * GAP;
    assert kr * (2 * (vn - GAP)) == (vn - GAP) * (2 * kr);
    assert kr * (wide + 0xfa00_0000) == kr * wide + kr * 0xfa00_0000;
    MulCancel(kr, 2 * (vn - GAP), wide + 0xfa00_0000);
  }

  lemma SmallerScaleFar(vn: int, k: int, kr: int, wide: int)
    requires 0 < k && 2 * k <= kr && 0xfa00_0000 <= wide
    requires kr * wide <= k * vn + kr * 0xfa00_0000 + k * GAP
    ensures 2 * (wide - 0xfa00_0000) <= vn + GAP
  {
    MulMonotone(wide - 0xfa00_0000, 2 * k, kr);
    assert kr * (wide - 0xfa00_0000) == kr * wide - kr * 0xfa00_0000;
    assert k * (2 * (wide - 0xfa00_0000)) == (wide - 0xfa00_0000) * (2 * k);
    assert k * (vn + GAP) == k * vn + k * GAP;
    MulCancel(k, 2 * (wide - 0xfa00_0000), vn + GAP);
  }

  /** Equal scales give neighbouring mantissas, different ones mantissas half the range apart. */
  lemma NearOrFar(vn: int, k: nat, kr: nat, wide: int)
    requires Normal(vn) && Normal(wide)
    requires var p, pr := Pow(2, k), Pow(2, kr);
      -(pr * 0xfa00_0000 + p * GAP) <= pr * wide - p * vn <= pr * 0xfa00_0000 + p * GAP
    ensures k == kr ==> wide - vn < R32 && vn - wide < R32
    ensures k != kr ==> wide - vn >= TOP - 4 * R32 || vn - wide >= TOP - 4 * R32
  {
    hide Pow;
    PowPositive(2, k);
    PowPositive(2, kr);
    if k == kr {
      SameScaleNear(vn, Pow(2, k), wide);
    } else if kr < k {
      PowMonotone(2, kr + 1, k);
      PowStep(2, kr);
      LargerScaleFar(vn, Pow(2, k), Pow(2, kr), wide);
    } else {
      PowMonotone(2, k + 1, kr);
      PowStep(2, k);
      SmallerScaleFar(vn, Pow(2, k), Pow(2, kr), wide);
    }
  }

  lemma {:induction false} Pow2Mod5(k: nat)
    ensures Pow(2, k) % 5 != 0
  {
    if k != 0 {
      Pow2Mod5(k - 1);
    }
  }

  /** If both mantissas rounded up to the next power of two, 10^j would be a power of two. */
  lemma NotBothAtTheTop(vn: int, vb: int, t: int, k: int)
    requires 0 < k && k != t && 0 < t <= 10000000
    requires R128 - ROUND <= vn < R128 && R128 - ROUND <= vb < R128
    ensures !Apart(vn, vb, t, k)
  {
    var a, b := R128 - vn, R128 - vb;
    assert k * vn - t * vb == (k - t) * R128 - k * a + t * b;
    MulMonotone(k, a, ROUND);
    MulMonotone(t, b, ROUND);
    MulMonotone(k, 0, a);
    MulMonotone(t, 0, b);
  }

  // ----- The check of the program -----

  function Got(wide: nat): nat { RebuiltHi(wide) * R32 + RebuiltLo(wide) }

  predicate RoundsUpOut(v: nat) { v + ROUND >= R128 }

  /** The 32-bit difference of the low words, read back as a signed number. */
  function LowDiff(lo: int, refLo: int): int
  {
    var d := (lo - refLo) % R32;
    if d < ROUND then d else d - R32
  }

  /** It is the signed 32-bit number that leads from one word to the other. */
  lemma LowDiffIs(lo: int, refLo: int)
    requires 0 <= lo < 0x1_0000_0000 && 0 <= refLo < 0x1_0000_0000
    ensures var d := LowDiff(lo, refLo); -0x8000_0000 <= d < 0x8000_0000 && (refLo + d) % 0x1_0000_0000 == lo
    ensures -1 <= LowDiff(lo, refLo) <= 1
            <==> lo == refLo || lo == (refLo + 1) % 0x1_0000_0000 || refLo == (lo + 1) % 0x1_0000_0000
  {
  }

  lemma RebuiltLoFits(wide: nat)
    ensures RebuiltLo(wide) < R32
  {
  }

  /** The base is the nearest multiple of eight below. */
  lemma BaseIsNearest(n: int)
    ensures Base(n) % 8 == 0 && Base(n) <= n < Base(n) + 8
  {
  }

  /** Rounding the wide value exactly, against what the wrapping addition leaves. */
  lemma RoundedWide(wide: nat)
    requires wide < R128
    ensures var exact := (wide + ROUND) / R32;
      && (wide % R64 + ROUND < R64 ==> Got(wide) == exact && exact / R32 == RebuiltHi(wide))
      && (wide % R64 + ROUND >= R64 ==> Got(wide) == exact - R32 && exact == (RebuiltHi(wide) + 1) * R32)
    ensures RebuiltLo(wide) == (wide + ROUND) / R32 % R32
    ensures Got(wide) == (wide + ROUND) / R32 <==> wide % R64 + ROUND < R64
  {
    var low := (wide % R64 + ROUND) / R32;
    assert (wide + ROUND) / R32 == RebuiltHi(wide) * R32 + low;
  }

  /** The carry can be lost: a normalised coefficient, times ten, whose rounding wraps the low word. */
  lemma LostCarry()
    ensures var base := U96(0x8000_0000_0000_0003, 0x3333_3333);
      var wide := Wide(base.Val(), MUL10[0]);
      TOP <= wide < R128 && wide % R64 + ROUND >= R64 && Got(wide) == (wide + ROUND) / R32 - R32
  {
  }

  lemma LowWordsNear(a: int, b: int)
    requires -1 <= a - b <= 1
    ensures -1 <= LowDiff(a % R32, b % R32) <= 1
  {
    DivModUnique(a % R32 - b % R32, R32, b / R32 - a / R32 + (a - b) / R32, (a - b) % R32);
  }

  lemma RoundedNear(wide: nat, vn: nat)
    requires wide < R128 && !RoundsUpOut(vn)
    requires wide - vn < R32 && vn - wide < R32
    ensures -1 <= Got(wide) - Rounded96(vn) <= 1 <==> wide % R64 + ROUND < R64
    ensures -1 <= LowDiff(RebuiltLo(wide), Rounded96(vn) % R32) <= 1
  {
    hide Got, RebuiltHi, RebuiltLo, LowDiff;
    RoundedWide(wide);
    var exact, ref := (wide + ROUND) / R32, (vn + ROUND) / R32;
    assert -1 <= exact - ref <= 1;
    LowWordsNear(exact, ref);
  }

  lemma RoundedFar(wide: nat, vn: nat)
    requires wide < R128 && !RoundsUpOut(vn)
    requires wide - vn >= TOP - 4 * R32 || vn - wide >= TOP - 4 * R32
    ensures !(-1 <= Got(wide) - Rounded96(vn) <= 1)
    ensures RebuiltHi(wide) != Rounded96(vn) / R32
  {
    var ref := (vn + ROUND) / R32;
    assert Rounded96(vn) == ref;
    assert ref / R32 == (vn + ROUND) / R64;
  }

  lemma RoundedTop(v: nat)
    requires Normal(v)
    ensures !RoundsUpOut(v) ==> R96 / 2 <= Rounded96(v) == (v + ROUND) / R32
    ensures !RoundsUpOut(v) ==> R32 * Rounded96(v) - v <= ROUND && v - R32 * Rounded96(v) <= ROUND
    ensures RoundsUpOut(v) ==> Rounded96(v) == 0
  {
  }

  /** The three outcomes for an entry: the exponents differ, an entry wrapped, or all is as it should be. */
  ghost predicate SameExponent(n: int)
    requires n % 8 != 0
  {
    Entry(n).exp == Entry(Base(n)).exp + RebuiltScale(n % 8, Coef(Base(n)))
  }

  ghost function RebuiltWide(n: int): nat
    requires n % 8 != 0
  {
    Wide(Coef(Base(n)), MUL10[n % 8 - 1])
  }

  lemma EntryMantissas(n: int)
    requires Rebuildable(n)
    ensures Normal(Entry(n).mant) && Normal(Entry(Base(n)).mant)
    ensures !(RoundsUpOut(Entry(n).mant) && RoundsUpOut(Entry(Base(n)).mant))
    ensures RebuiltWide(n) < R128
    ensures if RoundsUpOut(Entry(Base(n)).mant) then RebuiltWide(n) == 0 else TOP <= RebuiltWide(n)
  {
    hide Apart, Entry, Pow, Wide, Rounded96;
    var k := EntriesApart(n);
    EntryNormal(n);
    EntryNormal(Base(n));
    RoundedTop(Entry(Base(n)).mant);
    TableExact(n % 8);
    WideRange(Coef(Base(n)), MUL10[n % 8 - 1]);
    Pow2Mod5(k);
    PowPositive(2, k);
    if RoundsUpOut(Entry(n).mant) && RoundsUpOut(Entry(Base(n)).mant) {
      NotBothAtTheTop(Entry(n).mant, Entry(Base(n)).mant, TENS[n % 8 - 1], Pow(2, k));
    }
  }

  /** When the base did not wrap, equal exponents decide whether the mantissas are near. */
  lemma MantissasNearOrFar(n: int)
    requires Rebuildable(n) && !RoundsUpOut(Entry(Base(n)).mant)
    ensures SameExponent(n) ==> RebuiltWide(n) - Entry(n).mant < R32 && Entry(n).mant - RebuiltWide(n) < R32
    ensures !SameExponent(n) ==> RebuiltWide(n) - Entry(n).mant >= TOP - 4 * R32
                                 || Entry(n).mant - RebuiltWide(n) >= TOP - 4 * R32
  {
    hide Apart, Entry, Pow, Wide, Rounded96, RebuiltScale;
    var k := EntriesApart(n);
    var base, j := Coef(Base(n)), n % 8;
    EntryMantissas(n);
    RoundedTop(Entry(Base(n)).mant);
    WideExact(j, base);
    TableExact(j);
    PowPositive(2, k);
    ScalesAgree(Entry(n).mant, Entry(Base(n)).mant, base, TENS[j - 1], Pow(2, k), Pow(2, RebuiltScale(j, base)), RebuiltWide(n));
    NearOrFar(Entry(n).mant, k, RebuiltScale(j, base), RebuiltWide(n));
  }

  /** The rebuilt coefficient is within one unit of the tabulated one exactly when neither entry
      wrapped in the rounding to 96 bits, the exponents agree, and the last rounding of the
      rebuilding does not lose its carry. */
  lemma RebuiltWithinOne(n: int)
    requires Rebuildable(n)
    ensures -1 <= Got(RebuiltWide(n)) - Coef(n) <= 1
            <==> !RoundsUpOut(Entry(n).mant) && !RoundsUpOut(Entry(Base(n)).mant) && SameExponent(n)
                 && RebuiltWide(n) % R64 + ROUND < R64
  {
    hide Entry, Wide, Rounded96, SameExponent, RebuiltWide;
    EntryMantissas(n);
    RoundedTop(Entry(n).mant);
    if !RoundsUpOut(Entry(Base(n)).mant) && !RoundsUpOut(Entry(n).mant) {
      MantissasNearOrFar(n);
      if SameExponent(n) {
        RoundedNear(RebuiltWide(n), Entry(n).mant);
      } else {
        RoundedFar(RebuiltWide(n), Entry(n).mant);
      }
    }
  }

  /** Whenever the high words agree, the low words pass their check too. */
  lemma LowCheckCannotFail(n: int)
    requires Rebuildable(n) && RebuiltHi(RebuiltWide(n)) == Coef(n) / R32
    ensures -1 <= LowDiff(RebuiltLo(RebuiltWide(n)), Coef(n) % R32) <= 1
    ensures var lo, ref := RebuiltLo(RebuiltWide(n)), Coef(n) % 0x1_0000_0000;
      lo == ref || lo == (ref + 1) % 0x1_0000_0000 || ref == (lo + 1) % 0x1_0000_0000
  {
    hide Entry, Wide, Rounded96, SameExponent, RebuiltWide, LowDiff, RebuiltLo;
    RebuiltLoFits(RebuiltWide(n));
    LowDiffIs(RebuiltLo(RebuiltWide(n)), Coef(n) % R32);
    EntryMantissas(n);
    RoundedTop(Entry(n).mant);
    assert !RoundsUpOut(Entry(Base(n)).mant) && !RoundsUpOut(Entry(n).mant);
    MantissasNearOrFar(n);
    if SameExponent(n) {
      RoundedNear(RebuiltWide(n), Entry(n).mant);
    } else {
      RoundedFar(RebuiltWide(n), Entry(n).mant);
    }
  }

  datatype Verdict = Passed | HiError(n: int) | LoError(n: int)

  ghost predicate HiAgrees(n: int)
    requires n % 8 != 0
  {
    RebuiltHi(RebuiltWide(n)) == Coef(n) / R32
  }

  /** The checking loop of the program. Its second error can never be reported. */
  method CheckRebuilding(m: array<U96>, max: int) returns (r: Verdict)
    requires 0 <= max <= LIMIT && max % 8 == 0 && m.Length == 2 * max + 1
    requires forall n :: -max <= n <= max ==> m[max + n].Val() == Coef(n)
    ensures !r.LoError?
    ensures r.Passed? <==> forall n :: -max <= n <= max && n % 8 != 0 ==> HiAgrees(n)
    ensures r.HiError? ==> -max <= r.n <= max && r.n % 8 != 0 && !HiAgrees(r.n)
    ensures r.HiError? ==> forall n :: -max <= n < r.n && n % 8 != 0 ==> HiAgrees(n)
  {
    hide Coef, RebuiltWide, RebuiltHi, RebuiltLo, LowDiff;
    var n := -max;
    while n <= max
      invariant -max <= n <= max + 1
      invariant forall i :: -max <= i < n && i % 8 != 0 ==> HiAgrees(i)
    {
      if n % 8 != 0 {
        var ref := m[max + n];
        var base := m[max + (n - n % 8)];
        var result := Rebuild(base, MUL10[n % 8 - 1]);
        RebuiltIs(n, base, ref, result);
        if result.hi != ref.hi {
          assert !HiAgrees(n);
          return HiError(n);
        }
        LowCheckCannotFail(n);
        var d := LowDiff(result.lo, ref.lo);
        if d > 1 || d < -1 {
          return LoError(n);
        }
      }
      n := n + 1;
    }
    return Passed;
  }

  lemma RebuiltIs(n: int, base: U96, ref: U96, result: U96)
    requires n % 8 != 0 && base.Val() == Coef(Base(n)) && ref.Val() == Coef(n)
    requires var wide := Wide(base.Val(), MUL10[n % 8 - 1]);
      result.hi == RebuiltHi(wide) && result.lo == RebuiltLo(wide)
    ensures result.hi == RebuiltHi(RebuiltWide(n)) && result.lo == RebuiltLo(RebuiltWide(n))
    ensures ref.hi == Coef(n) / R32 && ref.lo == Coef(n) % R32
  {
    DivModUnique(ref.Val(), R32, ref.hi, ref.lo);
  }

  // ----- The exactness test that bounds the usable powers -----

  function Umul96x64Higher128(x: U96, y: Word): (Word, Word, Word)
  {
    var lower := Mul64(Lo32(y), x.lo);
    var product := Umul128(x.hi, y, Add64(Mul64(Hi32(y), x.lo), Hi32(lower)));
    (product.0, product.1, Lo32(lower))
  }

  /** The 160-bit product is exact, its low 32 bits returned apart. */
  lemma Umul96x64Exact(x: U96, y: Word)
    ensures var (hi, mid, lo) := Umul96x64Higher128(x, y);
      x.Val() * y == (hi * R64 + mid) * R32 + lo && lo < R32
  {
    HalfProduct64(Lo32(y), x.lo, 0);
    var lower := Mul64(Lo32(y), x.lo);
    HalfProduct64(Hi32(y), x.lo, Hi32(lower));
    var bias := Add64(Mul64(Hi32(y), x.lo), Hi32(lower));
    Umul128Exact(x.hi, y, bias);
    var product := Umul128(x.hi, y, bias);
    LowDigitApart(x.hi, x.lo, y, Hi32(y), Lo32(y), R32, bias, Hi32(lower), Lo32(lower), product.0 * R64 + product.1);
  }

  lemma LowDigitApart(h: int, l: int, y: int, yh: int, yl: int, r: int, bias: int, c: int, low: int, product: int)
    requires y == yh * r + yl && yl * l == c * r + low && bias == yh * l + c
    requires h * y + bias == product
    ensures (h * r + l) * y == product * r + low
  {
    assert (h * r + l) * y == (h * y) * r + (yh * l) * r + yl * l;
  }
}
