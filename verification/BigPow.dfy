/**
 The table of normalised powers of 5^18: big-endian limb arithmetic in place on a
 shared array, and the loop that packs the powers one after the other.
 */
module BigPow {
  import opened Powers
  import opened Words

  // ----- Numeric value of a big-endian limb sequence -----

  function Value(s: seq<int>): int
  {
    if s == [] then 0 else Value(s[..|s| - 1]) * R64 + s[|s| - 1]
  }

  lemma {:induction false} ValueConcat(a: seq<int>, b: seq<int>)
    ensures Value(a + b) == Value(a) * Pow(R64, |b|) + Value(b)
    decreases |b|
  {
    if b == [] {
      assert a + b == a;
    } else {
      var b' := b[..|b| - 1];
      assert (a + b)[..|a + b| - 1] == a + b';
      ValueConcat(a, b');
      var v, p, w := Value(a), Pow(R64, |b'|), Value(b');
      assert (v * p + w) * R64 == v * (R64 * p) + w * R64;
    }
  }

  lemma ValueFront(s: seq<int>)
    requires s != []
    ensures Value(s) == s[0] * Pow(R64, |s| - 1) + Value(s[1..])
  {
    assert s == [s[0]] + s[1..];
    assert Value([s[0]]) == s[0] by { assert [s[0]][..0] == []; }
    ValueConcat([s[0]], s[1..]);
  }

  lemma ValuePrepend(w: int, rest: seq<int>)
    ensures Value([w] + rest) == w * Pow(R64, |rest|) + Value(rest)
  {
    hide Value, Pow;
    ValueFront([w] + rest);
    assert ([w] + rest)[1..] == rest;
  }

  lemma {:induction false} ValueBound(s: seq<Word>)
    ensures 0 <= Value(s) < Pow(R64, |s|)
  {
    if s != [] {
      ValueBound(s[..|s| - 1]);
      assert Pow(R64, |s|) == R64 * Pow(R64, |s| - 1);
    }
  }

  /** Limbs of a given count are determined by their value. */
  lemma {:induction false} ValueInjective(s: seq<Word>, t: seq<Word>)
    requires |s| == |t| && Value(s) == Value(t)
    ensures s == t
  {
    if s != [] {
      var s', t' := s[..|s| - 1], t[..|t| - 1];
      DivModUnique(Value(s), R64, Value(s'), s[|s| - 1]);
      DivModUnique(Value(t), R64, Value(t'), t[|t| - 1]);
      ValueInjective(s', t');
      assert s == s' + [s[|s| - 1]] && t == t' + [t[|t| - 1]];
    }
  }

  // ----- Binary logarithm by table -----

  function FloorLog2(x: nat): (r: nat)
    requires 0 < x
    ensures Pow(2, r) <= x < Pow(2, r + 1)
  {
    if x == 1 then 0
    else
      var half := FloorLog2(x / 2);
      PowStep(2, half);
      PowStep(2, half + 1);
      1 + half
  }

  function Log2OrZero(x: nat): nat
  {
    if x == 0 then 0 else FloorLog2(x)
  }

  lemma {:induction false} FloorLog2Shift(x: nat, k: nat)
    requires 0 < x && Pow(2, k) <= x
    ensures 0 < Shr(x, k) && FloorLog2(x) == k + FloorLog2(Shr(x, k))
  {
    if k != 0 {
      PowPositive(2, k - 1);
      FloorLog2Shift(x / 2, k - 1);
      DivDouble(x, Pow(2, k - 1));
    }
  }

  method BuildUlog2Table() returns (nBit: array<nat>)
    ensures fresh(nBit) && nBit.Length == 256
    ensures forall n :: 0 <= n < 256 ==> nBit[n] == Log2OrZero(n)
  {
    nBit := new nat[256];
    for n := 0 to 256
      invariant forall i :: 0 <= i < n ==> nBit[i] == Log2OrZero(i)
    {
      var u8: nat := n;
      nBit[n] := 0;
      u8 := u8 / 2;
      while u8 != 0
        invariant Log2OrZero(n) == if u8 == 0 then nBit[n] else nBit[n] + 1 + FloorLog2(u8)
        invariant forall i :: 0 <= i < n ==> nBit[i] == Log2OrZero(i)
      {
        nBit[n] := nBit[n] + 1;
        u8 := u8 / 2;
      }
    }
  }

  method Ulog2Word32(nBit: array<nat>, x0: Word32) returns (r: nat)
    requires nBit.Length == 256 && forall n :: 0 <= n < 256 ==> nBit[n] == Log2OrZero(n)
    ensures r == Log2OrZero(x0)
  {
    var x: nat := x0;
    var bias := 0;
    assert Pow(2, 8) == 0x100;
    PowAdd(2, 8, 8);
    if x >= 0x1_0000 {
      FloorLog2Shift(x, 16);
      x := x / 0x1_0000;
      bias := bias + 16;
    }
    if x >= 0x100 {
      FloorLog2Shift(x, 8);
      x := x / 0x100;
      bias := bias + 8;
    }
    r := bias + nBit[x];
  }

  lemma Log2Hi32(x: Word)
    requires R32 <= x
    ensures 0 < Hi32(x) && FloorLog2(x) == 32 + FloorLog2(Hi32(x))
  {
    Pow2At32();
    FloorLog2Shift(x, 32);
  }

  method Ulog2(nBit: array<nat>, x: Word) returns (r: nat)
    requires nBit.Length == 256 && forall n :: 0 <= n < 256 ==> nBit[n] == Log2OrZero(n)
    ensures r == Log2OrZero(x)
  {
    hide Pow, FloorLog2;
    if x >= R32 {
      Log2Hi32(x);
      r := Ulog2Word32(nBit, Hi32(x));
      r := 32 + r;
    } else {
      r := Ulog2Word32(nBit, Lo32(x));
    }
  }

  // ----- Multiplication by one limb -----

  /** The carry out and the limbs of a limb-by-limb multiplication. */
  ghost function MulLimbs(s: seq<Word>, mul: Word): (Word, seq<Word>)
  {
    if s == [] then (0, [])
    else
      var rest := MulLimbs(s[1..], mul);
      var product := Umul128(s[0], mul, rest.0);
      (product.0, [product.1] + rest.1)
  }

  lemma {:induction false} MulLimbsValue(s: seq<Word>, mul: Word)
    ensures var r := MulLimbs(s, mul);
      |r.1| == |s| && Value(s) * mul == r.0 * Pow(R64, |s|) + Value(r.1)
  {
    if s != [] {
      MulLimbsValue(s[1..], mul);
      var rest := MulLimbs(s[1..], mul);
      Umul128Exact(s[0], mul, rest.0);
      var product := Umul128(s[0], mul, rest.0);
      assert s == [s[0]] + s[1..];
      MulStep(s[0], s[1..], mul, rest.0, product.0, product.1, rest.1);
    }
  }

  lemma MulStep(w: int, rest: seq<int>, mul: int, carry: int, higher: int, lo: int, done: seq<int>)
    requires |rest| == |done|
    requires Value(rest) * mul == carry * Pow(R64, |done|) + Value(done)
    requires w * mul + carry == higher * R64 + lo
    ensures Value([w] + rest) * mul == higher * Pow(R64, |done| + 1) + Value([lo] + done)
  {
    hide Value, Pow;
    ValuePrepend(w, rest);
    ValuePrepend(lo, done);
    PowStep(R64, |done|);
    MulStepArith(w, Value(rest), mul, carry, higher, lo, Value(done), Pow(R64, |done|), R64,
                 Value([w] + rest), Value([lo] + done), Pow(R64, |done| + 1));
  }

  lemma MulStepArith(w: int, v: int, mul: int, carry: int, higher: int, lo: int, d: int, p: int, b: int,
                     v': int, d': int, p': int)
    requires v * mul == carry * p + d
    requires w * mul + carry == higher * b + lo
    requires v' == w * p + v && d' == lo * p + d && p' == b * p
    ensures v' * mul == higher * p' + d'
  {
    assert (w * p + v) * mul == (w * mul) * p + v * mul;
    assert (w * mul) * p == (higher * b + lo - carry) * p;
  }

  lemma MulLimbsStep(s: seq<Word>, k: nat, mul: Word)
    requires k < |s|
    ensures MulLimbs(s[|s|..], mul) == (0, [])
    ensures var rest := MulLimbs(s[k + 1..], mul);
      var product := Umul128(s[k], mul, rest.0);
      MulLimbs(s[k..], mul) == (product.0, [product.1] + rest.1)
  {
    assert s[k..][1..] == s[k + 1..];
  }

  /** t is s times mul, with the carry in higher. */
  ghost predicate Multiplied(s: seq<Word>, mul: Word, higher: Word, t: seq<Word>)
  {
    |t| == |s| && Value(s) * mul == higher * Pow(R64, |s|) + Value(t)
  }

  /** Limbs from k on are written at x, all the rest is as before. */
  ghost predicate Stored(now: seq<Word>, before: seq<Word>, x: nat, k: nat, out: seq<Word>)
  {
    && |now| == |before| && k <= |out| && x + |out| <= |now|
    && (forall i :: k <= i < |out| ==> now[x + i] == out[i])
    && (forall i :: 0 <= i < |now| && !(x + k <= i < x + |out|) ==> now[i] == before[i])
  }

  lemma StoreOne(now: seq<Word>, before: seq<Word>, x: nat, k: nat, out: seq<Word>, limb: Word)
    requires Stored(now, before, x, k + 1, out)
    ensures Stored(now[x + k := limb], before, x, k, out[k := limb])
    ensures out[k := limb][k..] == [limb] + out[k + 1..]
  {
  }

  lemma AllStored(now: seq<Word>, before: seq<Word>, x: nat, out: seq<Word>)
    requires Stored(now, before, x, 0, out)
    ensures now[x..x + |out|] == out
    ensures now[..x] == before[..x] && now[x + |out|..] == before[x + |out|..]
  {
  }

  /** Works in place, and on any two stretches where no limb is written before it is read. */
  method BignumMul(xa: array<Word>, x: nat, ya: array<Word>, y: nat, sz: nat, mul: Word) returns (higher: Word)
    requires 0 < sz && x + sz <= xa.Length && y + sz <= ya.Length
    requires xa != ya || y <= x || x + sz <= y
    modifies xa
    ensures Multiplied(old(ya[y..y + sz]), mul, higher, xa[x..x + sz])
    ensures xa[..x] == old(xa[..x]) && xa[x + sz..] == old(xa[x + sz..])
  {
    hide Umul128, Value, Pow, MulLimbs, Stored, Multiplied;
    ghost var s, before := ya[y..y + sz], xa[..];
    ghost var out := xa[x..x + sz];
    NothingStored(before, x, sz);
    var k := sz - 1;
    var product := Umul128(ya[y + k], mul, 0);
    higher := product.0;
    xa[x + k] := product.1;
    MulLimbsStep(s, k, mul);
    StoreOne(before, before, x, k, out, product.1);
    out := out[k := product.1];
    while k != 0
      invariant 0 <= k < sz && |out| == sz
      invariant MulLimbs(s[k..], mul) == (higher, out[k..])
      invariant Stored(xa[..], before, x, k, out)
    {
      ghost var now := xa[..];
      StillThere(now, before, x, k, out, y);
      k := k - 1;
      product := Umul128(ya[y + k], mul, higher);
      higher := product.0;
      xa[x + k] := product.1;
      MulLimbsStep(s, k, mul);
      StoreOne(now, before, x, k, out, product.1);
      out := out[k := product.1];
    }
    assert s[0..] == s && out[0..] == out;
    LimbsMultiplied(s, mul, higher, out);
    AllStored(xa[..], before, x, out);
  }

  lemma LimbsMultiplied(s: seq<Word>, mul: Word, higher: Word, out: seq<Word>)
    requires MulLimbs(s, mul) == (higher, out)
    ensures Multiplied(s, mul, higher, out)
  {
    hide Value, Pow, MulLimbs;
    MulLimbsValue(s, mul);
  }

  lemma NothingStored(before: seq<Word>, x: nat, sz: nat)
    requires x + sz <= |before|
    ensures Stored(before, before, x, sz, before[x..x + sz])
  {
  }

  /** The limb to be read next, when it lies in the same array, has not been written yet. */
  lemma StillThere(now: seq<Word>, before: seq<Word>, x: nat, k: nat, out: seq<Word>, y: nat)
    requires Stored(now, before, x, k, out) && 0 < k
    ensures |now| == |before|
    ensures y + |out| <= |now| && (y <= x || x + |out| <= y) ==> now[y + k - 1] == before[y + k - 1]
  {
  }

  // ----- Shifts by 1..63 bits -----

  /** t is s shifted left, with the bits that left the top returned in spill. */
  ghost predicate ShiftedLeft(s: seq<Word>, shift: nat, t: seq<Word>, spill: nat)
  {
    && |t| == |s|
    && spill < Pow(2, shift)
    && Value(s) * Pow(2, shift) == spill * Pow(R64, |s|) + Value(t)
  }

  /** t is s shifted right with the low bits of higher coming in at the top; the bits that
      left the bottom come back at the top of spill. */
  ghost predicate ShiftedRight(s: seq<Word>, shift: nat, higher: nat, t: seq<Word>, spill: nat)
    requires shift <= 64
  {
    PowPositive(2, shift);
    var wide := (higher % Pow(2, shift)) * Pow(R64, |s|) + Value(s);
    && |t| == |s|
    && Value(t) == wide / Pow(2, shift)
    && spill == (wide % Pow(2, shift)) * Pow(2, 64 - shift)
  }

  lemma TopBits(w: Word, shift: nat)
    requires shift <= 64
    ensures Shr(w, 64 - shift) < Pow(2, shift)
  {
    PowersSplitWord(shift);
    ShiftArith(w, Pow(2, shift), Pow(2, 64 - shift));
  }

  /** One limb of a left shift: the low bits move up, the bits from the next limb fill the gap. */
  lemma LeftLimb(w: Word, shift: nat, fill: nat)
    requires shift <= 64 && fill < Pow(2, shift)
    ensures var out := BitOr(Shl64(w, shift), fill);
      out < R64 && out == Shl64(w, shift) + fill && w * Pow(2, shift) + fill == Shr(w, 64 - shift) * R64 + out
  {
    PowersSplitWord(shift);
    ShiftArith(w, Pow(2, shift), Pow(2, 64 - shift));
    OrDisjoint(w % Pow(2, 64 - shift), shift, fill);
  }

  /** The limb a left shift stores at position i. */
  ghost function LeftShifted(s: seq<Word>, shift: nat, i: nat): nat
    requires i < |s| && shift <= 64
  {
    BitOr(Shl64(s[i], shift), if i + 1 < |s| then Shr(s[i + 1], 64 - shift) else 0)
  }

  lemma {:induction false} LeftShiftedValue(s: seq<Word>, shift: nat, t: seq<Word>)
    requires 0 < |s| == |t| && shift <= 64
    requires forall i :: 0 <= i < |s| ==> t[i] == LeftShifted(s, shift, i)
    ensures ShiftedLeft(s, shift, t, Shr(s[0], 64 - shift))
  {
    hide BitOr, Shl64, Shr;
    var rest, done := s[1..], t[1..];
    PowersSplitWord(shift);
    assert s == [s[0]] + rest && t == [t[0]] + done;
    TopBits(s[0], shift);
    if rest == [] {
      LeftLimb(s[0], shift, 0);
      MulStep(s[0], rest, Pow(2, shift), 0, Shr(s[0], 64 - shift), t[0], done);
    } else {
      TopBits(s[1], shift);
      LeftLimb(s[0], shift, Shr(s[1], 64 - shift));
      forall i | 0 <= i < |rest| ensures done[i] == LeftShifted(rest, shift, i) {
        assert done[i] == t[i + 1] == LeftShifted(s, shift, i + 1);
      }
      LeftShiftedValue(rest, shift, done);
      MulStep(s[0], rest, Pow(2, shift), Shr(s[1], 64 - shift), Shr(s[0], 64 - shift), t[0], done);
    }
  }

  method BignumShiftLeft(xa: array<Word>, x: nat, sz: nat, shift: nat) returns (higher: Word)
    requires 0 < sz && x + sz <= xa.Length && 0 < shift < 64
    modifies xa
    ensures ShiftedLeft(old(xa[x..x + sz]), shift, xa[x..x + sz], higher)
    ensures xa[..x] == old(xa[..x]) && xa[x + sz..] == old(xa[x + sz..])
  {
    hide BitOr, Shl64, Shr, Pow, Value, ShiftedLeft;
    ghost var s := xa[x..x + sz];
    TopBits(s[0], shift);
    higher := Shr(xa[x], 64 - shift);
    var n := 0;
    while n < sz - 1
      invariant 0 <= n <= sz - 1
      invariant forall i :: 0 <= i < n ==> xa[x + i] == LeftShifted(s, shift, i)
      invariant forall i :: n <= i < sz ==> xa[x + i] == s[i]
      invariant xa[..x] == old(xa[..x]) && xa[x + sz..] == old(xa[x + sz..])
    {
      TopBits(s[n + 1], shift);
      LeftLimb(s[n], shift, Shr(s[n + 1], 64 - shift));
      xa[x + n] := BitOr(Shl64(xa[x + n], shift), Shr(xa[x + n + 1], 64 - shift));
      n := n + 1;
    }
    xa[x + sz - 1] := Shl64(xa[x + sz - 1], shift);
    OrZero(Shl64(s[sz - 1], shift));
    LeftShiftedValue(s, shift, xa[x..x + sz]);
  }

  /** The limb a right shift stores at position i. */
  ghost function RightShifted(s: seq<Word>, shift: nat, higher: Word, i: nat): nat
    requires i < |s| && shift <= 64
  {
    BitOr(Shr(s[i], shift), Shl64(if i == 0 then higher else s[i - 1], 64 - shift))
  }

  lemma {:induction false} RightShiftedValue(s: seq<Word>, shift: nat, higher: Word, t: seq<Word>)
    requires 0 < |s| == |t| && shift <= 64
    requires forall i :: 0 <= i < |s| ==> t[i] == RightShifted(s, shift, higher, i)
    ensures 0 < Pow(2, shift)
    ensures (higher % Pow(2, shift)) * Pow(R64, |s|) + Value(s)
            == Value(t) * Pow(2, shift) + s[|s| - 1] % Pow(2, shift)
  {
    hide BitOr, Shl64, Shr;
    var rest, done, p := s[1..], t[1..], Pow(2, shift);
    assert s == [s[0]] + rest && t == [t[0]] + done;
    RightLimb(s[0], higher, shift);
    if rest != [] {
      forall i | 0 <= i < |rest| ensures done[i] == RightShifted(rest, shift, s[0], i) {
        assert done[i] == t[i + 1] == RightShifted(s, shift, higher, i + 1);
      }
      RightShiftedValue(rest, shift, s[0], done);
    }
    RightStep(s[0], rest, p, s[0] % p, higher % p, t[0], done, s[|s| - 1] % p);
  }

  lemma RightStep(w: int, rest: seq<int>, p: int, m: int, incoming: int, out: int, done: seq<int>, low: int)
    requires |done| == |rest|
    requires m * Pow(R64, |rest|) + Value(rest) == Value(done) * p + low
    requires out * p + m == w + incoming * R64
    ensures incoming * Pow(R64, |rest| + 1) + Value([w] + rest) == Value([out] + done) * p + low
  {
    hide Value, Pow;
    ValuePrepend(w, rest);
    ValuePrepend(out, done);
    PowStep(R64, |done|);
    RightStepArith(w, m, Value(rest), p, incoming, out, Value(done), low, Pow(R64, |rest|), R64,
                   Value([w] + rest), Value([out] + done), Pow(R64, |rest| + 1));
  }

  lemma RightStepArith(w: int, m: int, v: int, p: int, incoming: int, out: int, d: int, low: int, q: int, b: int,
                       v': int, d': int, q': int)
    requires m * q + v == d * p + low
    requires out * p + m == w + incoming * b
    requires v' == w * q + v && d' == out * q + d && q' == b * q
    ensures incoming * q' + v' == d' * p + low
  {
    assert (out * q + d) * p == (out * p) * q + d * p;
    assert (out * p) * q == (w + incoming * b - m) * q;
  }

  method BignumShiftRight(xa: array<Word>, x: nat, sz: nat, shift: nat, higher: Word) returns (lower: Word)
    requires 0 < sz && x + sz <= xa.Length && 0 < shift < 64
    modifies xa
    ensures ShiftedRight(old(xa[x..x + sz]), shift, higher, xa[x..x + sz], lower)
    ensures xa[..x] == old(xa[..x]) && xa[x + sz..] == old(xa[x + sz..])
  {
    hide BitOr, Shl64, Shr, Pow, Value, ShiftedRight;
    ghost var s := xa[x..x + sz];
    lower := Shl64(xa[x + sz - 1], 64 - shift);
    var k := sz;
    while k > 1
      invariant 1 <= k <= sz
      invariant forall i :: k <= i < sz ==> xa[x + i] == RightShifted(s, shift, higher, i)
      invariant forall i :: 0 <= i < k ==> xa[x + i] == s[i]
      invariant xa[..x] == old(xa[..x]) && xa[x + sz..] == old(xa[x + sz..])
    {
      RightLimb(s[k - 1], s[k - 2], shift);
      xa[x + k - 1] := BitOr(Shr(xa[x + k - 1], shift), Shl64(xa[x + k - 2], 64 - shift));
      k := k - 1;
    }
    RightLimb(s[0], higher, shift);
    xa[x] := BitOr(Shr(xa[x], shift), Shl64(higher, 64 - shift));
    RightShiftedMeaning(s, shift, higher, xa[x..x + sz]);
  }

  lemma RightShiftedMeaning(s: seq<Word>, shift: nat, higher: Word, t: seq<Word>)
    requires 0 < |s| == |t| && shift <= 64
    requires forall i :: 0 <= i < |s| ==> t[i] == RightShifted(s, shift, higher, i)
    ensures ShiftedRight(s, shift, higher, t, Shl64(s[|s| - 1], 64 - shift))
  {
    hide BitOr, Shr, Shl64, Value, Pow;
    var p, last := Pow(2, shift), s[|s| - 1];
    RightShiftedValue(s, shift, higher, t);
    DivModUnique((higher % p) * Pow(R64, |s|) + Value(s), p, Value(t), last % p);
    LowBitsLeft(last, shift);
  }

  lemma LowBitsLeft(w: Word, shift: nat)
    requires shift <= 64
    ensures 0 < Pow(2, shift) && Shl64(w, 64 - shift) == (w % Pow(2, shift)) * Pow(2, 64 - shift)
  {
    hide Pow;
    PowersSplitWord(shift);
    LowBitsUp(w, Pow(2, shift), Pow(2, 64 - shift));
  }

  /** Shifting back right with the spilled bits restores every limb and spills nothing. */
  lemma ShiftLeftThenRight(s: seq<Word>, shift: nat, t: seq<Word>, higher: Word, u: seq<Word>, lower: nat)
    requires shift <= 64
    requires ShiftedLeft(s, shift, t, higher)
    requires ShiftedRight(t, shift, higher, u, lower)
    ensures u == s && lower == 0
  {
    hide Pow, Value;
    var p := Pow(2, shift);
    PowPositive(2, shift);
    DivModUnique(higher, p, 0, higher);
    DivModUnique(Value(s) * p, p, Value(s), 0);
    ValueInjective(s, u);
  }

  /** The equations of a left shift determine every limb and the spill. */
  lemma ShiftLeftDetermined(s: seq<Word>, shift: nat, t: seq<Word>, spill: nat, t': seq<Word>, spill': nat)
    requires ShiftedLeft(s, shift, t, spill) && ShiftedLeft(s, shift, t', spill')
    ensures t == t' && spill == spill'
  {
    hide Pow, Value;
    ValueBound(t);
    ValueBound(t');
    var n := Value(s) * Pow(2, shift);
    DivModUnique(n, Pow(R64, |s|), spill, Value(t));
    DivModUnique(n, Pow(R64, |s|), spill', Value(t'));
    ValueInjective(t, t');
  }

  method ShiftThereAndBack(xa: array<Word>, x: nat, sz: nat, shift: nat) returns (lower: Word)
    requires 0 < sz && x + sz <= xa.Length && 0 < shift < 64
    modifies xa
    ensures xa[..] == old(xa[..]) && lower == 0
  {
    hide ShiftedLeft, ShiftedRight;
    ghost var all, s := xa[..], xa[x..x + sz];
    var higher := BignumShiftLeft(xa, x, sz, shift);
    ghost var t := xa[x..x + sz];
    lower := BignumShiftRight(xa, x, sz, shift, higher);
    ShiftLeftThenRight(s, shift, t, higher, xa[x..x + sz], lower);
    assert xa[..] == xa[..x] + xa[x..x + sz] + xa[x + sz..];
    assert all == all[..x] + s + all[x + sz..];
  }
}
