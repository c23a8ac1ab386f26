/** The loop that packs the normalised powers 5^18, 5^36, ... into one shared array. */
module BigPowTable {
  import opened Powers
  import opened Words
  import opened BigPow

  const POW_STEP: nat := 18
  const BIG_POW_TBL_SIZE: nat := (324 + POW_STEP) / 18
  const MUL: nat := 0x3782dace9d9
  const MSB64: nat := 0x8000_0000_0000_0000

  /** The limbs hold 5^(18(n+1)) scaled by fewer than 64 factors of two, top bit set, no zero limb at the end. */
  ghost predicate IsNormalPower(limbs: seq<Word>, n: nat, e: nat)
  {
    && limbs != []
    && MSB64 <= limbs[0]
    && limbs[|limbs| - 1] != 0
    && e < 64
    && Value(limbs) == Pow(5, POW_STEP * (n + 1)) * Pow(2, e)
  }

  // ----- A power of five is odd, so it has no factor 2^64 to hide -----

  lemma {:induction false} PowerOfFiveOdd(k: nat)
    ensures Pow(5, k) % 2 == 1
  {
    if k != 0 {
      PowerOfFiveOdd(k - 1);
    }
  }

  lemma OddTimesPow2(m: nat, k: nat, q: int)
    requires m % 2 == 1 && m * Pow(2, k) == q * R64
    ensures 64 <= k
  {
    if k < 64 {
      hide Pow;
      Pow2At64();
      PowAdd(2, k, 64 - k);
      PowStep(2, 63 - k);
      PowPositive(2, k);
      OddIsNoMultiple(m, Pow(2, k), q, Pow(2, 63 - k), R64);
    }
  }

  lemma OddIsNoMultiple(m: int, p: int, q: int, h: int, b: int)
    requires m % 2 == 1 && 0 < p && b == p * (2 * h)
    ensures m * p != q * b
  {
    if m * p == q * b {
      assert q * b == p * (2 * (q * h));
      CancelFactor(p, m, 2 * (q * h));
    }
  }

  lemma CancelFactor(p: int, a: int, b: int)
    requires 0 < p && a * p == p * b
    ensures a == b
  {
    MulCancel(p, a, b);
    MulCancel(p, b, a);
  }

  lemma LastLimb(s: seq<Word>)
    requires s != []
    ensures s[|s| - 1] == 0 <==> Value(s) % R64 == 0
    ensures s[|s| - 1] == 0 ==> Value(s) == Value(s[..|s| - 1]) * R64
  {
    DivModUnique(Value(s), R64, Value(s[..|s| - 1]), s[|s| - 1]);
  }

  /** For odd m the last limb of m * 2^k is zero exactly when k reaches a whole limb. */
  lemma LastLimbOfOddMultiple(s: seq<Word>, m: nat, k: nat)
    requires s != [] && m % 2 == 1 && Value(s) == m * Pow(2, k)
    ensures s[|s| - 1] == 0 <==> 64 <= k
  {
    LastLimb(s);
    if s[|s| - 1] == 0 {
      OddTimesPow2(m, k, Value(s[..|s| - 1]));
    }
    if 64 <= k {
      Pow2At64();
      PowAdd(2, k - 64, 64);
      MulAssoc(m, Pow(2, k - 64), R64);
      DivModUnique(Value(s), R64, m * Pow(2, k - 64), 0);
    }
  }

  // ----- One step of the packing loop, on limb sequences -----

  lemma TopLimbBounds(y: seq<Word>, hi: int, x: seq<Word>)
    requires y != [] && MSB64 <= y[0] && |x| == |y|
    requires Value(y) * MUL == hi * Pow(R64, |x|) + Value(x)
    ensures 1907348632812 <= hi < MUL
  {
    hide Value, Pow;
    var p := Pow(R64, |y| - 1);
    PowStep(R64, |y| - 1);
    ValueBound(x);
    ValueBound(y);
    ValueBound(y[1..]);
    ValueFront(y);
    PowPositive(R64, |y| - 1);
    MulMonotone(p, MSB64, y[0]);
    TopLimbArith(Value(y), hi, Value(x), p, R64 * p);
  }

  lemma TopLimbArith(vy: int, hi: int, vx: int, p: int, q: int)
    requires 0 < p && q == R64 * p && p * MSB64 <= vy < q && 0 <= vx < q && vy * MUL == hi * q + vx
    ensures 1907348632812 <= hi < MUL
  {
    if MUL <= hi {
      MulMonotone(q, MUL, hi);
    }
    if hi < 1907348632812 {
      MulMonotone(q, hi, 1907348632811);
    }
  }

  lemma Pow2At40()
    ensures Pow(2, 40) == 0x100_0000_0000 && Pow(2, 42) == 0x400_0000_0000 && Pow(2, 22) == 0x40_0000
  {
    assert Pow(2, 10) == 0x400;
    PowAdd(2, 10, 10);
    PowAdd(2, 20, 20);
  }

  /** The top limb of the product always needs a shift by 22 or 23 bits. */
  lemma ShiftIs22Or23(hi: nat)
    requires 1907348632812 <= hi < MUL
    ensures FloorLog2(hi) == 41 || FloorLog2(hi) == 40
  {
    hide Pow, FloorLog2;
    Pow2At40();
    var r := FloorLog2(hi);
    if r < 40 {
      PowMonotone(2, r + 1, 40);
    } else if r > 41 {
      PowMonotone(2, 42, r);
    }
  }

  lemma Log2OfWord(x: Word)
    requires 0 < x
    ensures FloorLog2(x) < 64 && Pow(2, 63) == MSB64
  {
    Pow2At64();
    if 64 <= FloorLog2(x) {
      PowMonotone(2, 64, FloorLog2(x));
    }
  }

  /** After the normalising shift nothing has left the top and the top bit is set. */
  lemma ShiftNormalizes(m: seq<Word>, shift: nat, t: seq<Word>, spill: nat)
    requires m != [] && 0 < m[0] && shift + FloorLog2(m[0]) == 63
    requires ShiftedLeft(m, shift, t, spill)
    ensures spill == 0 && MSB64 <= t[0]
  {
    hide Value, Pow;
    var p := Pow(R64, |m| - 1);
    Log2OfWord(m[0]);
    PowPositive(R64, |m| - 1);
    PowStep(R64, |m| - 1);
    ValueFront(m);
    ValueFront(t);
    ValueBound(m[1..]);
    ValueBound(t[1..]);
    ValueBound(t);
    PowAdd(2, FloorLog2(m[0]), shift);
    PowStep(2, FloorLog2(m[0]));
    ShiftNormalizesArith(m[0], Value(m[1..]), Pow(2, shift), Pow(2, FloorLog2(m[0])), spill, p, R64 * p,
                         t[0], Value(t[1..]), MSB64);
  }

  lemma ScaledBelow(v: int, pl: int, ps: int, p: int)
    requires 0 < ps && v < pl * p
    ensures v * ps < (pl * ps) * p
  {
    MulMonotone(ps, v + 1, pl * p);
    assert ps * (pl * p) == (pl * ps) * p;
  }

  lemma ScaledAtLeast(v: int, pl: int, ps: int, p: int)
    requires 0 < ps && pl * p <= v
    ensures (pl * ps) * p <= v * ps
  {
    MulMonotone(ps, pl * p, v);
    assert ps * (pl * p) == (pl * ps) * p;
  }

  lemma NoSpill(n: int, spill: int, q: int, r: int)
    requires 0 <= spill && 0 <= r && n < q && n == spill * q + r && 0 < q
    ensures spill == 0
  {
    if 1 <= spill {
      MulMonotone(q, 1, spill);
    }
  }

  lemma ShiftNormalizesArith(hi: int, rest: int, ps: int, pl: int, spill: int, p: int, q: int, t0: int, trest: int, msb: int)
    requires 0 < p && 0 < ps && 0 < msb && q == 2 * msb * p
    requires pl * ps == msb && pl <= hi < 2 * pl && 0 <= rest < p && 0 <= trest < p && 0 <= t0 && 0 <= spill
    requires (hi * p + rest) * ps == spill * q + (t0 * p + trest)
    ensures spill == 0 && msb <= t0
  {
    var v := hi * p + rest;
    assert v * ps < q by {
      MulMonotone(p, hi, 2 * pl - 1);
      ScaledBelow(v, 2 * pl, ps, p);
      MulAssoc(2, pl, ps);
    }
    assert msb * p <= v * ps by {
      MulMonotone(p, pl, hi);
      ScaledAtLeast(v, pl, ps, p);
    }
    MulMonotone(p, 0, t0);
    MulMonotone(p, 1, msb);
    MulAssoc(2, msb, p);
    NoSpill(v * ps, spill, q, t0 * p + trest);
    if t0 < msb {
      MulMonotone(p, t0, msb - 1);
    }
  }

  lemma FiveTo18()
    ensures Pow(5, POW_STEP) == MUL
  {
    assert Pow(5, 6) == 15625;
    PowAdd(5, 6, 6);
    PowAdd(5, 12, 6);
  }

  lemma NextPower(n: nat)
    ensures Pow(5, POW_STEP * (n + 2)) == Pow(5, POW_STEP * (n + 1)) * MUL
    ensures Pow(5, POW_STEP * (n + 2)) % 2 == 1
  {
    assert POW_STEP * (n + 2) == POW_STEP * (n + 1) + POW_STEP;
    PowAdd(5, POW_STEP * (n + 1), POW_STEP);
    FiveTo18();
    PowerOfFiveOdd(POW_STEP * (n + 2));
  }

  /** From the region for n and the limbs of its product by 5^18, shifted, to the region for n + 1:
      a zero last limb is dropped, and that happens exactly when a whole factor 2^64 is there. */
  lemma NextRegion(y: seq<Word>, n: nat, e: nat, m: seq<Word>, shift: nat, t: seq<Word>) returns (e': nat)
    requires IsNormalPower(y, n, e) && |m| == |y| + 1 && Value(m) == Value(y) * MUL
    requires shift < 64 && ShiftedLeft(m, shift, t, 0) && MSB64 <= t[0]
    ensures IsNormalPower(if t[|y|] != 0 then t else t[..|y|], n + 1, e')
  {
    hide Value, Pow;
    var base, next := Pow(5, POW_STEP * (n + 1)), Pow(5, POW_STEP * (n + 2));
    NextPower(n);
    PowAdd(2, e, shift);
    Regroup(base, Pow(2, e), MUL, Pow(2, shift));
    LastLimbOfOddMultiple(t, next, e + shift);
    if t[|y|] != 0 {
      e' := e + shift;
    } else {
      e' := e + shift - 64;
      var u := t[..|y|];
      LastLimb(t);
      PowAdd(2, e', 64);
      Pow2At64();
      MulAssoc(next, Pow(2, e'), R64);
      assert Value(u) == next * Pow(2, e');
      LastLimbOfOddMultiple(u, next, e');
    }
  }

  lemma Regroup(a: int, b: int, c: int, d: int)
    ensures a * b * c * d == (a * c) * (b * d)
  {
  }

  // ----- The loop -----

  /** Contiguous regions: region i of the packed array is the normalised 5^(18(i+1)). */
  ghost predicate Packed(g: seq<Word>, offs: seq<nat>, exps: seq<nat>)
  {
    && |offs| == |exps| + 1
    && offs[0] == 0
    && (forall i :: 0 <= i < |exps| ==> Region(g, offs, i, exps[i]))
  }

  ghost predicate Region(g: seq<Word>, offs: seq<nat>, i: nat, e: nat)
    requires i + 1 < |offs|
  {
    && offs[i] <= offs[i + 1] <= offs[i] + i + 1
    && offs[i + 1] <= |g|
    && IsNormalPower(g[offs[i]..offs[i + 1]], i, e)
  }

  /** Appending a region keeps the earlier ones, whatever is written from the old end on. */
  lemma PackedExtends(g: seq<Word>, offs: seq<nat>, exps: seq<nat>, g': seq<Word>, end: nat, e: nat)
    requires Packed(g, offs, exps) && |g'| == |g|
    requires var total := offs[|exps|]; total <= |g| && g'[..total] == g[..total]
    requires var total := offs[|exps|]; total <= end <= total + |exps| + 1 && end <= |g|
    requires IsNormalPower(g'[offs[|exps|]..end], |exps|, e)
    ensures Packed(g', offs + [end], exps + [e])
  {
    hide IsNormalPower;
    var offs', exps', total := offs + [end], exps + [e], offs[|exps|];
    OffsetsAscend(g, offs, exps);
    forall i | 0 <= i < |exps'| ensures Region(g', offs', i, exps'[i]) {
      if i < |exps| {
        assert Region(g, offs, i, exps[i]);
        assert g'[offs[i]..offs[i + 1]] == g'[..total][offs[i]..offs[i + 1]] == g[offs[i]..offs[i + 1]];
      }
    }
  }

  lemma {:induction false} OffsetsAscendTo(g: seq<Word>, offs: seq<nat>, exps: seq<nat>, k: nat)
    requires Packed(g, offs, exps) && k < |offs|
    ensures forall i :: 0 <= i <= k ==> offs[i] <= offs[k]
    ensures 2 * offs[k] <= k * (k + 1)
  {
    hide IsNormalPower;
    if k != 0 {
      OffsetsAscendTo(g, offs, exps, k - 1);
      assert Region(g, offs, k - 1, exps[k - 1]);
      assert k * (k + 1) == (k - 1) * k + 2 * k;
    }
  }

  lemma OffsetsAscend(g: seq<Word>, offs: seq<nat>, exps: seq<nat>)
    requires Packed(g, offs, exps)
    ensures forall i :: 0 <= i <= |exps| ==> offs[i] <= offs[|exps|]
    ensures 2 * offs[|exps|] <= |exps| * (|exps| + 1)
  {
    OffsetsAscendTo(g, offs, exps, |exps|);
  }

  /** 5^18 itself, shifted to the top of one limb. */
  lemma FirstRegion()
    ensures FloorLog2(MUL) == 41
    ensures IsNormalPower([Shl64(MUL, 22)], 0, 22)
  {
    Pow2At40();
    var r := FloorLog2(MUL);
    if r < 41 {
      PowMonotone(2, r + 1, 41);
    } else if r > 41 {
      PowMonotone(2, 42, r);
    }
    FiveTo18();
    var w := Shl64(MUL, 22);
    assert w == MUL * Pow(2, 22);
    assert Value([w][..0]) == 0 && Value([w]) == w;
    assert POW_STEP * (0 + 1) == POW_STEP;
  }

  /** The body of the loop: multiply the last region by 5^18 past the end, normalise, drop a zero limb. */
  method AppendPower(g: array<Word>, nBit: array<nat>, prevSz: nat, sz0: nat, totalSz: nat, ghost n: nat, ghost e: nat)
    returns (sz: nat, ghost e': nat)
    requires nBit.Length == 256 && g as object != nBit as object
    requires forall i :: 0 <= i < 256 ==> nBit[i] == Log2OrZero(i)
    requires totalSz == prevSz + sz0 && totalSz + sz0 + 1 <= g.Length
    requires IsNormalPower(g[prevSz..totalSz], n, e)
    modifies g
    ensures g[..totalSz] == old(g[..totalSz])
    ensures sz0 <= sz <= sz0 + 1 && IsNormalPower(g[totalSz..totalSz + sz], n + 1, e')
  {
    hide FloorLog2, Value, Pow, ShiftedLeft;
    ghost var y := g[prevSz..totalSz];
    var x := totalSz;
    var higher := BignumMul(g, x + 1, g, prevSz, sz0, MUL);
    g[x] := higher;
    ghost var low := g[x + 1..x + sz0 + 1];
    ghost var m := g[x..x + sz0 + 1];
    assert m == [higher] + low && m[1..] == low;
    ValueFront(m);
    TopLimbBounds(y, higher, low);
    ShiftIs22Or23(higher);
    var log := Ulog2(nBit, higher);
    var spill := BignumShiftLeft(g, x, sz0 + 1, 63 - log);
    ghost var t := g[x..x + sz0 + 1];
    ShiftNormalizes(m, 63 - log, t, spill);
    e' := NextRegion(y, n, e, m, 63 - log, t);
    sz := sz0;
    if g[x + sz] != 0 {
      sz := sz + 1;
    }
    assert g[x..x + sz0] == t[..sz0];
  }

  /** The table builder of the program, for any number of powers. Each power fits in at most one
      limb more than the one before, which bounds the room the array must have. */
  method BuildBigPowers(g: array<Word>, offset: array<nat>, count: nat) returns (ghost exps: seq<nat>)
    requires 0 < count && count * (count + 1) <= 2 * g.Length && offset.Length == count + 1
    requires g as object != offset as object
    modifies g, offset
    ensures |exps| == count && Packed(g[..], offset[..], exps)
  {
    hide IsNormalPower, FloorLog2;
    var nBit := BuildUlog2Table();
    var sz, prevSz, totalSz := 1, 0, 1;
    FirstRegion();
    var log := Ulog2(nBit, MUL);
    g[0] := Shl64(MUL, 63 - log);
    offset[0] := 0;
    ghost var offs: seq<nat> := [0, 1];
    exps := [22];
    assert g[..][0..1] == [g[0]];
    assert Region(g[..], offs, 0, 22);
    var n := 1;
    while n < count
      invariant 1 <= n <= count && |exps| == n
      invariant Packed(g[..], offs, exps)
      invariant forall i :: 0 <= i < n ==> offset[i] == offs[i]
      invariant offs[n - 1] == prevSz && offs[n] == totalSz == prevSz + sz && 1 <= sz <= n
      invariant fresh(nBit) && nBit.Length == 256
      invariant forall i :: 0 <= i < 256 ==> nBit[i] == Log2OrZero(i)
    {
      ghost var before := g[..];
      offset[n] := totalSz;
      OffsetsAscend(g[..], offs, exps);
      RoomForNext(totalSz, sz, n, count, g.Length);
      assert Region(before, offs, n - 1, exps[n - 1]) && before[prevSz..totalSz] == g[prevSz..totalSz];
      ghost var e;
      sz, e := AppendPower(g, nBit, prevSz, sz, totalSz, n - 1, exps[n - 1]);
      assert g[..][..totalSz] == g[..totalSz] && before[..totalSz] == g[..totalSz];
      assert g[..][totalSz..totalSz + sz] == g[totalSz..totalSz + sz];
      PackedExtends(before, offs, exps, g[..], totalSz + sz, e);
      offs, exps := offs + [totalSz + sz], exps + [e];
      prevSz, totalSz := totalSz, totalSz + sz;
      n := n + 1;
    }
    offset[count] := totalSz;
    assert offset[..] == offs;
  }

  lemma RoomForNext(total: nat, sz: nat, n: nat, count: nat, room: nat)
    requires 2 * total <= n * (n + 1) && sz <= n < count && count * (count + 1) <= 2 * room
    ensures total + sz + 1 <= room
  {
    MulMonotone(n + 1, n + 2, count + 1);
    MulMonotone(count + 1, n + 1, count);
    assert (n + 1) * (n + 2) == n * (n + 1) + 2 * (n + 1);
  }

  /** The arrays of the program are large enough for its nineteen powers. */
  method BuildProgramTable() returns (g: array<Word>, offset: array<nat>, ghost exps: seq<nat>)
    ensures g.Length == 200 && offset.Length == BIG_POW_TBL_SIZE + 1
    ensures |exps| == BIG_POW_TBL_SIZE && Packed(g[..], offset[..], exps)
    ensures offset.Length == 20 && |exps| == 19
    ensures forall k: nat :: 0 < k <= 342 && k % 18 == 0 ==> HoldsPower(g[..], offset[..], exps, k)
  {
    g := new Word[200](_ => 0);
    offset := new nat[BIG_POW_TBL_SIZE + 1](_ => 0);
    exps := BuildBigPowers(g, offset, BIG_POW_TBL_SIZE);
    forall k: nat | 0 < k <= 342 && k % 18 == 0 ensures HoldsPower(g[..], offset[..], exps, k) {
      RegionHolds(g[..], offset[..], exps, k);
    }
  }

  /** The k-th power of five, for a multiple k of 18, stands between two offsets: scaled by fewer than 64
      factors of two, its top bit set, its last limb not zero. */
  ghost predicate HoldsPower(g: seq<Word>, offset: seq<nat>, exps: seq<nat>, k: nat)
  {
    var i := k / 18;
    && 0 < i < |offset| && i <= |exps| && offset[i - 1] < offset[i] <= |g|
    && 0x8000_0000_0000_0000 <= g[offset[i - 1]] && g[offset[i] - 1] != 0 && exps[i - 1] < 64
    && Value(g[offset[i - 1]..offset[i]]) == Pow(5, k) * Pow(2, exps[i - 1])
  }

  lemma RegionHolds(g: seq<Word>, offset: seq<nat>, exps: seq<nat>, k: nat)
    requires Packed(g, offset, exps) && 0 < k && k % 18 == 0 && k / 18 <= |exps|
    ensures HoldsPower(g, offset, exps, k)
  {
    hide Value, Pow;
    var i := k / 18;
    assert Region(g, offset, i - 1, exps[i - 1]);
    assert POW_STEP * (i - 1 + 1) == k;
  }

  // ----- The packed form of a power is the only one -----

  lemma LongerIsLarger(s: seq<Word>, t: seq<Word>)
    requires |s| < |t| && MSB64 <= t[0]
    ensures Value(s) * MSB64 < Value(t)
  {
    hide Value, Pow;
    ValueBound(s);
    TopBitGives(t);
    PowMonotone(R64, |s|, |t| - 1);
  }

  lemma TopBitSetIsLarge(s: seq<Word>, t: seq<Word>)
    requires 0 < |s| == |t| && MSB64 <= t[0]
    ensures Value(s) < 2 * Value(t)
  {
    hide Value, Pow;
    ValueBound(s);
    PowStep(R64, |s| - 1);
    TopBitGives(t);
  }

  lemma TopBitGives(t: seq<Word>)
    requires t != [] && MSB64 <= t[0]
    ensures Pow(R64, |t| - 1) * MSB64 <= Value(t)
  {
    hide Value, Pow;
    ValueFront(t);
    ValueBound(t[1..]);
    PowPositive(R64, |t| - 1);
    MulMonotone(Pow(R64, |t| - 1), MSB64, t[0]);
  }

  lemma SmallerExponent(m: nat, d: nat, e: nat)
    requires 0 < m && d < e
    ensures 2 * (m * Pow(2, d)) <= m * Pow(2, e)
    ensures e < d + 64 ==> m * Pow(2, e) <= m * Pow(2, d) * MSB64
  {
    hide Pow;
    PowMonotone(2, d + 1, e);
    PowStep(2, d);
    MulMonotone(m, 2 * Pow(2, d), Pow(2, e));
    if e < d + 64 {
      PowAdd(2, d, 63);
      PowMonotone(2, e, d + 63);
      Log2OfWord(1);
      MulMonotone(m, Pow(2, e), Pow(2, d) * MSB64);
      MulAssoc(m, Pow(2, d), MSB64);
    }
  }

  lemma NormalPowersOrdered(s: seq<Word>, t: seq<Word>, n: nat, d: nat, e: nat)
    requires IsNormalPower(s, n, d) && IsNormalPower(t, n, e)
    ensures !(|s| < |t|) && !(|s| == |t| && e < d)
  {
    hide Value, Pow;
    var m := Pow(5, POW_STEP * (n + 1));
    PowPositive(5, POW_STEP * (n + 1));
    if |s| < |t| {
      LongerIsLarger(s, t);
      if d < e {
        SmallerExponent(m, d, e);
      } else {
        PowMonotone(2, e, d);
        MulMonotone(m, Pow(2, e), Pow(2, d));
        ValueBound(s);
      }
    } else if |s| == |t| && e < d {
      TopBitSetIsLarge(s, t);
      SmallerExponent(m, e, d);
    }
  }

  /** Two packed regions for the same power are the same limbs with the same scale. */
  lemma NormalPowerUnique(s: seq<Word>, t: seq<Word>, n: nat, d: nat, e: nat)
    requires IsNormalPower(s, n, d) && IsNormalPower(t, n, e)
    ensures s == t && d == e
  {
    NormalPowersOrdered(s, t, n, d, e);
    NormalPowersOrdered(t, s, n, e, d);
    ValueInjective(s, t);
  }
}
