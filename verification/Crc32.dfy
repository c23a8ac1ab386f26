/**
 The CRC-32 table: bytes pushed through the register most significant bit first, then
 reflected, against the least-significant-bit-first division of section 8 of RFC 1952.
 */
module Crc32 {
  import opened Powers
  import opened Words

  const POLY: nat := 0x04c11db7
  const REFLECTED_POLY: nat := 0xedb88320
  const MSBIT: nat := 0x8000_0000

  type Byte = x: int | 0 <= x < 0x100

  /** Bitwise exclusive or. */
  function Xor(a: nat, b: nat): nat
  {
    if a == 0 && b == 0 then 0 else (a % 2 + b % 2) % 2 + 2 * Xor(a / 2, b / 2)
  }

  lemma {:induction false} XorZero(a: nat)
    ensures Xor(a, 0) == a && Xor(0, a) == a
  {
    if a != 0 {
      XorZero(a / 2);
    }
  }

  lemma XorHalves(a: nat, b: nat)
    ensures Xor(a, b) % 2 == (a % 2 + b % 2) % 2 && Xor(a, b) / 2 == Xor(a / 2, b / 2)
    ensures Xor(a, b) == (a % 2 + b % 2) % 2 + 2 * Xor(a / 2, b / 2)
  {
  }

  lemma {:induction false} XorAssoc(a: nat, b: nat, c: nat)
    ensures Xor(Xor(a, b), c) == Xor(a, Xor(b, c))
    decreases a + b + c
  {
    hide Xor;
    if a == 0 {
      XorZero(b);
      XorZero(Xor(b, c));
    } else {
      XorHalves(a, b);
      XorHalves(b, c);
      XorHalves(Xor(a, b), c);
      XorHalves(a, Xor(b, c));
      XorAssoc(a / 2, b / 2, c / 2);
      ParityAssoc(a, b, c);
    }
  }

  lemma ParityAssoc(a: nat, b: nat, c: nat)
    ensures ((a % 2 + b % 2) % 2 + c % 2) % 2 == (a % 2 + (b % 2 + c % 2) % 2) % 2
  {
  }

  lemma {:induction false} XorCommutes(a: nat, b: nat)
    ensures Xor(a, b) == Xor(b, a)
  {
    if a != 0 || b != 0 {
      XorCommutes(a / 2, b / 2);
    }
  }

  // ----- Reflection -----

  /** x << n on unbounded numbers. */
  function ShiftLeft(x: nat, n: nat): nat
    decreases n
  {
    if n == 0 then x else 2 * ShiftLeft(x, n - 1)
  }

  lemma {:induction false} ShiftLeftIsProduct(x: nat, n: nat)
    ensures ShiftLeft(x, n) == x * Pow(2, n)
    decreases n
  {
    if n != 0 {
      ShiftLeftIsProduct(x, n - 1);
      MulAssoc(x, 2, Pow(2, n - 1));
    }
  }

  lemma {:induction false} ShiftLeftSum(x: nat, y: nat, n: nat)
    ensures ShiftLeft(x, n) + ShiftLeft(y, n) == ShiftLeft(x + y, n)
    decreases n
  {
    if n != 0 {
      ShiftLeftSum(x, y, n - 1);
    }
  }

  lemma {:induction false} ShiftLeftTwice(x: nat, m: nat, n: nat)
    ensures ShiftLeft(ShiftLeft(x, m), n) == ShiftLeft(x, m + n)
    decreases n
  {
    if n != 0 {
      ShiftLeftTwice(x, m, n - 1);
      assert ShiftLeft(x, m + n) == 2 * ShiftLeft(x, m + n - 1);
    }
  }

  lemma {:induction false} XorFits(a: nat, b: nat, n: nat)
    requires a < ShiftLeft(1, n) && b < ShiftLeft(1, n)
    ensures Xor(a, b) < ShiftLeft(1, n)
    decreases n
  {
    if n != 0 {
      XorFits(a / 2, b / 2, n - 1);
      XorHalves(a, b);
    }
  }

  /** The lowest ch bits in reverse order; bits above them are dropped. */
  function Reflected(ref: nat, ch: nat): nat
    decreases ch
  {
    if ch == 0 then 0 else ShiftLeft(ref % 2, ch - 1) + Reflected(ref / 2, ch - 1)
  }

  lemma {:induction false} ReflectedFits(ref: nat, ch: nat)
    ensures Reflected(ref, ch) < ShiftLeft(1, ch)
    decreases ch
  {
    if ch != 0 {
      ReflectedFits(ref / 2, ch - 1);
      ShiftLeftZero(ch - 1);
    }
  }

  lemma {:induction false} ShiftLeftZero(n: nat)
    ensures ShiftLeft(0, n) == 0
    decreases n
  {
    if n != 0 {
      ShiftLeftZero(n - 1);
    }
  }

  lemma WordWidth(n: nat)
    requires n <= 32
    ensures 0 < ShiftLeft(1, n) <= R32
    ensures ShiftLeft(1, 32) == R32 && ShiftLeft(1, 31) == MSBIT
  {
    hide Pow, ShiftLeft;
    ShiftLeftIsProduct(1, n);
    ShiftLeftIsProduct(1, 32);
    DoubleShift(1, 31);
    PowMonotone(2, n, 32);
    PowPositive(2, n);
    Pow2At32();
  }

  lemma DoubleShift(x: nat, n: nat)
    ensures ShiftLeft(x, n + 1) == 2 * ShiftLeft(x, n)
  {
  }

  /** Setting the bit just below a value that ends above it. */
  lemma SetBit(q: nat, n: nat)
    ensures BitOr(ShiftLeft(q, n + 1), ShiftLeft(1, n)) == ShiftLeft(2 * q + 1, n)
    ensures ShiftLeft(q, n + 1) == ShiftLeft(2 * q, n)
    ensures ShiftLeft(2 * q + 1, n) == ShiftLeft(2 * q, n) + ShiftLeft(1, n)
  {
    ShiftLeftIsProduct(q, n + 1);
    ShiftLeftIsProduct(1, n);
    PowPositive(2, n);
    OrDisjoint(q, n + 1, Pow(2, n));
    ShiftLeftTwice(q, 1, n);
    ShiftLeftSum(2 * q, 1, n);
  }

  /** The loop of the source, one bit set at a time from the top down. */
  method Reflect(ref0: Word32, ch: nat) returns (value: Word32)
    requires ch <= 32
    ensures value == Reflected(ref0, ch)
  {
    hide BitOr, Reflected, ShiftLeft;
    value := 0;
    var ref: nat := ref0;
    ghost var q: nat := 0;
    ReflectedFits(ref0, ch);
    WordWidth(ch);
    ShiftLeftZero(ch);
    for i := 1 to ch + 1
      invariant value == ShiftLeft(q, ch - i + 1)
      invariant value + Reflected(ref, ch - i + 1) == Reflected(ref0, ch)
    {
      ReflectedStep(ref, ch - i);
      WordWidth(ch - i);
      ShiftLeftZero(ch - i);
      SetBit(q, ch - i);
      q := 2 * q;
      if ref % 2 == 1 {
        value := BitOr(value, ShiftLeft(1, ch - i));
        q := q + 1;
      }
      ref := ref / 2;
    }
    ReflectedNone(ref);
  }

  lemma ReflectedStep(ref: nat, n: nat)
    ensures Reflected(ref, n + 1) == ShiftLeft(ref % 2, n) + Reflected(ref / 2, n)
  {
  }

  lemma ReflectedNone(ref: nat)
    ensures Reflected(ref, 0) == 0
  {
  }

  /** Reflection puts the top bit at the bottom. */
  lemma {:induction false} ReflectedTop(b: nat, r: nat, n: nat)
    requires b <= 1 && r < ShiftLeft(1, n)
    ensures Reflected(ShiftLeft(b, n) + r, n + 1) == b + 2 * Reflected(r, n)
    decreases n
  {
    ReflectedStep(ShiftLeft(b, n) + r, n);
    if n == 0 {
      ReflectedNone((ShiftLeft(b, n) + r) / 2);
      ReflectedNone(r);
    } else {
      ReflectedStep(r, n - 1);
      ReflectedTop(b, r / 2, n - 1);
    }
  }

  /** Reflecting twice gives the low bits back. */
  lemma {:induction false} ReflectedTwice(x: nat, n: nat)
    requires x < ShiftLeft(1, n)
    ensures Reflected(Reflected(x, n), n) == x
    decreases n
  {
    if n != 0 {
      ReflectedFits(x / 2, n - 1);
      ReflectedTop(x % 2, Reflected(x / 2, n - 1), n - 1);
      ReflectedTwice(x / 2, n - 1);
    }
  }

  lemma {:induction false} ReflectedZero(n: nat)
    ensures Reflected(0, n) == 0
  {
    if n != 0 {
      ReflectedZero(n - 1);
      ShiftLeftZero(n - 1);
    }
  }

  /** The low m bits reflect to the top, the bits above them to the bottom. */
  lemma {:induction false} ReflectedSplit(high: nat, low: nat, m: nat, n: nat)
    requires low < ShiftLeft(1, m)
    ensures Reflected(ShiftLeft(high, m) + low, m + n) == ShiftLeft(Reflected(low, m), n) + Reflected(high, n)
    decreases m
  {
    if m == 0 {
      ShiftLeftZero(n);
    } else {
      var k := m - 1;
      ReflectedStep(ShiftLeft(high, m) + low, k + n);
      ReflectedSplit(high, low / 2, k, n);
      ShiftLeftTwice(low % 2, k, n);
      ShiftLeftSum(ShiftLeft(low % 2, k), Reflected(low / 2, k), n);
    }
  }

  /** Exclusive or acts on a top bit and on the bits below it separately. */
  lemma {:induction false} XorTop(x: nat, r: nat, y: nat, s: nat, n: nat)
    requires x <= 1 && y <= 1 && r < ShiftLeft(1, n) && s < ShiftLeft(1, n)
    ensures Xor(ShiftLeft(x, n) + r, ShiftLeft(y, n) + s) == ShiftLeft((x + y) % 2, n) + Xor(r, s)
    decreases n
  {
    hide Xor;
    XorHalves(ShiftLeft(x, n) + r, ShiftLeft(y, n) + s);
    if n == 0 {
      XorZero(0);
    } else {
      XorHalves(r, s);
      XorTop(x, r / 2, y, s / 2, n - 1);
    }
  }

  lemma {:induction false} ReflectedXor(a: nat, b: nat, n: nat)
    ensures Reflected(Xor(a, b), n) == Xor(Reflected(a, n), Reflected(b, n))
    decreases n
  {
    hide Xor;
    if n == 0 {
      XorZero(0);
    } else {
      XorHalves(a, b);
      ReflectedXor(a / 2, b / 2, n - 1);
      ReflectedFits(a / 2, n - 1);
      ReflectedFits(b / 2, n - 1);
      XorTop(a % 2, Reflected(a / 2, n - 1), b % 2, Reflected(b / 2, n - 1), n - 1);
    }
  }

  // ----- The two registers -----

  /** The step of the source: shift left, subtract the polynomial when the top bit falls out. */
  function MsbStep(r: nat): nat { Xor(2 * r % R32, if r / MSBIT % 2 == 1 then POLY else 0) }

  /** The mirrored step: shift right, subtract the mirrored polynomial when a one falls out. */
  function LsbStep(c: nat): nat { Xor(c / 2, if c % 2 == 1 then REFLECTED_POLY else 0) }

  function MsbSteps(r: nat, n: nat): nat
    decreases n
  {
    if n == 0 then r else MsbSteps(MsbStep(r), n - 1)
  }

  function LsbSteps(c: nat, n: nat): nat
    decreases n
  {
    if n == 0 then c else LsbSteps(LsbStep(c), n - 1)
  }

  lemma NibblesReflect()
    ensures Reflected(0x4, 4) == 0x2 && Reflected(0xc, 4) == 0x3 && Reflected(0x1, 4) == 0x8
    ensures Reflected(0xd, 4) == 0xb && Reflected(0xb, 4) == 0xd && Reflected(0x7, 4) == 0xe
  {
    hide Reflected;
    NibbleReflects(0x4);
    NibbleReflects(0xc);
    NibbleReflects(0x1);
    NibbleReflects(0xd);
    NibbleReflects(0xb);
    NibbleReflects(0x7);
  }

  lemma NibbleReflects(x: nat)
    ensures Reflected(x, 4) == 8 * (x % 2) + 4 * (x / 2 % 2) + 2 * (x / 2 / 2 % 2) + x / 2 / 2 / 2 % 2
  {
    ReflectedStep(x, 3);
    ReflectedStep(x / 2, 2);
    ReflectedStep(x / 2 / 2, 1);
    ReflectedStep(x / 2 / 2 / 2, 0);
    ReflectedNone(x / 2 / 2 / 2 / 2);
  }

  lemma AppendNibble(high: nat, low: nat, n: nat)
    requires low < 16
    ensures Reflected(high * 16 + low, 4 + n) == Reflected(low, 4) * Pow(2, n) + Reflected(high, n)
  {
    ShiftLeftIsProduct(high, 4);
    ShiftLeftIsProduct(1, 4);
    ShiftLeftIsProduct(Reflected(low, 4), n);
    assert Pow(2, 4) == 16;
    ReflectedSplit(high, low, 4, n);
  }

  /** The mirrored step with its constant written out. */
  lemma LsbStepIs(c: nat)
    ensures LsbStep(c) == if c % 2 == 1 then Xor(c / 2, 0xedb8_8320) else c / 2
  {
    XorZero(c / 2);
  }

  lemma PolyReflects()
    ensures Reflected(0x04c1_1db7, 32) == 0xedb8_8320 && POLY == 0x04c1_1db7 && REFLECTED_POLY == 0xedb8_8320
  {
    hide Reflected;
    NibblesReflect();
    assert Pow(2, 4) == 0x10 && Pow(2, 0) == 1;
    PowAdd(2, 4, 4);
    PowAdd(2, 4, 8);
    PowAdd(2, 4, 12);
    PowAdd(2, 4, 16);
    PowAdd(2, 4, 20);
    PowAdd(2, 4, 24);
    AppendNibble(0x04c11db, 0x7, 28);
    AppendNibble(0x04c11d, 0xb, 24);
    AppendNibble(0x04c11, 0xd, 20);
    AppendNibble(0x04c1, 0x1, 16);
    AppendNibble(0x04c, 0x1, 12);
    AppendNibble(0x04, 0xc, 8);
    AppendNibble(0x0, 0x4, 4);
    ReflectedZero(4);
  }

  /** One step of the source, seen in the mirror, is one step least significant bit first. */
  lemma StepReflects(r: nat)
    requires r < R32
    ensures MsbStep(r) < R32 && Reflected(MsbStep(r), 32) == LsbStep(Reflected(r, 32))
  {
    hide Xor, Reflected, ShiftLeft;
    WordWidth(0);
    var b, s := r / MSBIT, r % MSBIT;
    assert r == b * MSBIT + s && b <= 1 && 2 * r % R32 == 2 * s;
    TopBit(b);
    ReflectedTop(b, s, 31);
    ReflectedStep(2 * s, 31);
    ShiftLeftZero(31);
    PolyReflects();
    ReflectedZero(32);
    ReflectedXor(2 * s, if b == 1 then POLY else 0, 32);
    XorFits(2 * s, if b == 1 then POLY else 0, 32);
  }

  lemma TopBit(b: nat)
    requires b <= 1
    ensures ShiftLeft(b, 31) == b * MSBIT
  {
    WordWidth(0);
    ShiftLeftZero(31);
  }

  lemma {:induction false} StepsReflect(r: nat, n: nat)
    requires r < R32
    ensures Reflected(MsbSteps(r, n), 32) == LsbSteps(Reflected(r, 32), n)
    decreases n
  {
    hide MsbStep, LsbStep, Reflected;
    if n != 0 {
      StepReflects(r);
      StepsReflect(MsbStep(r), n - 1);
    }
  }

  /** An entry of the table: eight steps, bits in reflected order before and after. */
  lemma EntryIsEightSteps(i: nat)
    requires i < 256
    ensures Reflected(i, 8) < 0x100
    ensures Reflected(MsbSteps(Reflected(i, 8) * 0x100_0000, 8), 32) == LsbSteps(i, 8)
  {
    hide Reflected, MsbSteps, LsbSteps, ShiftLeft;
    PowersOfBytes();
    ShiftLeftIsProduct(1, 8);
    ShiftLeftIsProduct(Reflected(i, 8), 24);
    WordWidth(0);
    ReflectedFits(i, 8);
    ShiftLeftZero(8);
    ReflectedSplit(0, i, 8, 24);
    ReflectedZero(24);
    ReflectedTwice(i, 32);
    StepsReflect(Reflected(i, 8) * 0x100_0000, 8);
  }

  lemma PowersOfBytes()
    ensures Pow(2, 8) == 0x100 && Pow(2, 24) == 0x100_0000
  {
    assert Pow(2, 4) == 0x10;
    PowAdd(2, 4, 4);
    PowAdd(2, 8, 8);
    PowAdd(2, 8, 16);
  }

  lemma MsbStepsStep(r: nat, n: nat)
    ensures MsbSteps(r, n + 1) == MsbSteps(MsbStep(r), n) && MsbSteps(r, 0) == r
  {
  }

  method BuildTable() returns (v: array<Word32>)
    ensures fresh(v) && v.Length == 256
    ensures forall i :: 0 <= i < 256 ==> v[i] == LsbSteps(i, 8)
  {
    hide Reflected, LsbSteps, MsbSteps, Xor;
    v := new Word32[256];
    for i := 0 to 256
      invariant forall k :: 0 <= k < i ==> v[k] == LsbSteps(k, 8)
    {
      EntryIsEightSteps(i);
      var r: Word32 := Reflect(i, 8);
      r := (r * 0x100_0000) % R32;
      ghost var start := r;
      for j := 0 to 8
        invariant MsbSteps(r, 8 - j) == MsbSteps(start, 8)
        invariant forall k :: 0 <= k < i ==> v[k] == LsbSteps(k, 8)
      {
        StepReflects(r);
        MsbStepsStep(r, 7 - j);
        r := Xor(2 * r % R32, if r / MSBIT % 2 == 1 then POLY else 0);
      }
      MsbStepsStep(r, 0);
      v[i] := Reflect(r, 32);
    }
  }

  // ----- The table against bit-by-bit division -----

  lemma LsbStepXor(a: nat, b: nat)
    ensures LsbStep(Xor(a, b)) == Xor(LsbStep(a), LsbStep(b))
  {
    hide Xor;
    XorHalves(a, b);
    var p := if a % 2 == 1 then REFLECTED_POLY else 0;
    var q := if b % 2 == 1 then REFLECTED_POLY else 0;
    XorSwap(a / 2, p, b / 2, q);
    XorZero(p);
    XorZero(q);
    XorSelf(REFLECTED_POLY);
  }

  lemma XorSwap(a: nat, p: nat, b: nat, q: nat)
    ensures Xor(Xor(a, p), Xor(b, q)) == Xor(Xor(a, b), Xor(p, q))
  {
    hide Xor;
    XorAssoc(a, p, Xor(b, q));
    XorAssoc(p, b, q);
    XorCommutes(p, b);
    XorAssoc(b, p, q);
    XorAssoc(a, b, Xor(p, q));
  }

  lemma {:induction false} XorSelf(a: nat)
    ensures Xor(a, a) == 0
  {
    if a != 0 {
      XorSelf(a / 2);
    }
  }

  lemma {:induction false} LsbStepsXor(a: nat, b: nat, n: nat)
    ensures LsbSteps(Xor(a, b), n) == Xor(LsbSteps(a, n), LsbSteps(b, n))
    decreases n
  {
    if n != 0 {
      LsbStepXor(a, b);
      LsbStepsXor(LsbStep(a), LsbStep(b), n - 1);
    }
  }

  /** Zeros fall out without feedback. */
  lemma {:induction false} LsbStepsShift(x: nat, n: nat)
    ensures LsbSteps(ShiftLeft(x, n), n) == x
    decreases n
  {
    if n != 0 {
      XorZero(ShiftLeft(x, n - 1));
      LsbStepsShift(x, n - 1);
    }
  }

  lemma {:induction false} XorDisjoint(q: nat, k: nat, b: nat)
    requires b < ShiftLeft(1, k)
    ensures Xor(ShiftLeft(q, k), b) == ShiftLeft(q, k) + b
    decreases k
  {
    if k == 0 {
      XorZero(q);
    } else {
      XorDisjoint(q, k - 1, b / 2);
      XorHalves(ShiftLeft(q, k), b);
    }
  }

  /** Eight steps at once: one table entry and a shift by a byte. */
  lemma TableStep(c: nat)
    ensures LsbSteps(c, 8) == Xor(LsbSteps(c % 0x100, 8), c / 0x100)
  {
    hide Xor, LsbSteps, ShiftLeft;
    PowersOfBytes();
    var q, b := c / 0x100, c % 0x100;
    ShiftLeftIsProduct(q, 8);
    ShiftLeftIsProduct(1, 8);
    XorDisjoint(q, 8, b);
    LsbStepsXor(ShiftLeft(q, 8), b, 8);
    LsbStepsShift(q, 8);
    XorCommutes(q, LsbSteps(b, 8));
  }

  lemma {:induction false} XorShifted(a: nat, b: nat, k: nat)
    ensures 0 < Pow(2, k) && Xor(a, b) / Pow(2, k) == Xor(a / Pow(2, k), b / Pow(2, k))
  {
    if k != 0 {
      XorShifted(a / 2, b / 2, k - 1);
      XorHalves(a, b);
      DivDouble(a, Pow(2, k - 1));
      DivDouble(b, Pow(2, k - 1));
      DivDouble(Xor(a, b), Pow(2, k - 1));
    }
  }

  /** Bit j of an exclusive or. */
  lemma XorBit(a: nat, b: nat, j: nat)
    ensures 0 < Pow(2, j)
    ensures Xor(a, b) / Pow(2, j) % 2 == if a / Pow(2, j) % 2 == b / Pow(2, j) % 2 then 0 else 1
  {
    hide Xor, Pow;
    XorShifted(a, b, j);
    LowBit(a / Pow(2, j), b / Pow(2, j));
  }

  lemma LowBit(a: nat, b: nat)
    ensures Xor(a, b) % 2 == if a % 2 == b % 2 then 0 else 1
  {
    hide Xor;
    XorHalves(a, b);
  }

  /** Bit j of a reflected number is the bit as far from the other end. */
  lemma {:induction false} ReflectedBit(ref: nat, ch: nat, j: nat)
    requires j < ch
    ensures 0 < Pow(2, j) && 0 < Pow(2, ch - 1 - j)
    ensures Reflected(ref, ch) / Pow(2, j) % 2 == ref / Pow(2, ch - 1 - j) % 2
    decreases ch
  {
    hide Pow, Reflected, ShiftLeft;
    var rest := Reflected(ref / 2, ch - 1);
    PowPositive(2, j);
    PowPositive(2, ch - 1 - j);
    ReflectedStep(ref, ch - 1);
    ReflectedFits(ref / 2, ch - 1);
    ShiftLeftIsProduct(1, ch - 1);
    ShiftLeftIsProduct(ref % 2, ch - 1);
    if j == ch - 1 {
      DivModUnique(Reflected(ref, ch), Pow(2, j), ref % 2, rest);
      PowZero();
    } else {
      PowAdd(2, j, ch - 1 - j);
      PowStep(2, ch - 2 - j);
      BitBelow(ref % 2, rest, Pow(2, j), Pow(2, ch - 2 - j), Pow(2, ch - 1));
      ReflectedBit(ref / 2, ch - 1, j);
      DivDouble(ref, Pow(2, ch - 2 - j));
    }
  }

  lemma PowZero()
    ensures Pow(2, 0) == 1
  {
  }

  /** A multiple of a higher power does not change the bit at p. */
  lemma BitBelow(b: int, rest: int, p: int, half: int, q: int)
    requires 0 < p && q == p * (2 * half)
    ensures (b * q + rest) / p % 2 == rest / p % 2
  {
    var k := b * half;
    assert b * q == (2 * k) * p;
    assert rest == p * (rest / p) + rest % p;
    DivModUnique(b * q + rest, p, 2 * k + rest / p, rest % p);
    Parity(k, rest / p);
  }

  lemma Parity(k: int, m: int)
    ensures (2 * k + m) % 2 == m % 2
  {
  }

  /** The register over a message, one byte into the low bits and eight steps each. */
  function BitwiseCrc(c: nat, message: seq<Byte>): nat
    decreases |message|
  {
    if message == [] then c else BitwiseCrc(LsbSteps(Xor(c, message[0]), 8), message[1..])
  }

  /** The table-driven form of section 8 of RFC 1952. */
  function TableCrc(v: seq<Word32>, c: nat, message: seq<Byte>): nat
    requires |v| == 256
    decreases |message|
  {
    if message == [] then c else TableCrc(v, Xor(v[Xor(c, message[0]) % 0x100], c / 0x100), message[1..])
  }

  /** One byte through the table and through eight steps. */
  lemma ByteStep(v: seq<Word32>, c: nat, b: Byte)
    requires |v| == 256 && forall i :: 0 <= i < 256 ==> v[i] == LsbSteps(i, 8)
    ensures LsbSteps(Xor(c, b), 8) == Xor(v[Xor(c, b) % 0x100], c / 0x100)
  {
    hide Xor, LsbSteps;
    TableStep(Xor(c, b));
    PowersOfBytes();
    XorShifted(c, b, 8);
    XorZero(c / 0x100);
  }

  /** With the table the program builds, both registers agree on every message. */
  lemma {:induction false} TableCrcIsBitwise(v: seq<Word32>, c: nat, message: seq<Byte>)
    requires |v| == 256 && forall i :: 0 <= i < 256 ==> v[i] == LsbSteps(i, 8)
    ensures TableCrc(v, c, message) == BitwiseCrc(c, message)
    decreases |message|
  {
    if message != [] {
      hide Xor, LsbSteps;
      ByteStep(v, c, message[0]);
      TableCrcIsBitwise(v, LsbSteps(Xor(c, message[0]), 8), message[1..]);
    }
  }
}
