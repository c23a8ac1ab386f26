/**
 Machine words as bounded integers: a left shift drops the bits that leave the
 word, a sum or product is taken modulo the word size, and `|` works bit by bit.
 */
module Words {
  import opened Powers

  const R32: nat := 0x1_0000_0000
  const R64: nat := 0x1_0000_0000_0000_0000

  type Word32 = x: int | 0 <= x < R32
  type Word = x: int | 0 <= x < R64

  function Add64(a: Word, b: Word): Word { (a + b) % R64 }

  function Mul64(a: Word, b: Word): Word { (a * b) % R64 }

  /** A left shift that stays in the word loses the bits shifted past its top. */
  function Shl64(a: Word, shift: nat): Word
  {
    (a * Pow(2, shift)) % R64
  }

  function Shr(a: nat, shift: nat): (r: nat)
    ensures r <= a
  {
    PowPositive(2, shift);
    QuotientAtMost(a, Pow(2, shift));
    a / Pow(2, shift)
  }

  /** The bitwise `|` of the source. */
  function BitOr(a: nat, b: nat): nat
  {
    if a == 0 && b == 0 then 0
    else (if a % 2 == 1 || b % 2 == 1 then 1 else 0) + 2 * BitOr(a / 2, b / 2)
  }

  lemma {:induction false} OrZero(a: nat)
    ensures BitOr(a, 0) == a
  {
    if a != 0 {
      OrZero(a / 2);
    }
  }

  lemma {:induction false} OrCommutes(a: nat, b: nat)
    ensures BitOr(a, b) == BitOr(b, a)
  {
    if a != 0 || b != 0 {
      OrCommutes(a / 2, b / 2);
    }
  }

  /** `|` adds when one operand lives above bit k and the other below it. */
  lemma {:induction false} OrDisjoint(q: nat, k: nat, b: nat)
    requires b < Pow(2, k)
    ensures BitOr(q * Pow(2, k), b) == q * Pow(2, k) + b
  {
    var a := q * Pow(2, k);
    if k == 0 {
      OrZero(a);
    } else if a == 0 && b == 0 {
    } else {
      assert a == 2 * (q * Pow(2, k - 1));
      OrDisjoint(q, k - 1, b / 2);
    }
  }

  function Lo32(x: Word): Word { x % R32 }

  function Hi32(x: Word): Word { x / R32 }

  function Make64(hi: Word, lo: Word): nat
  {
    BitOr((hi * R32) % R64, lo)
  }

  lemma Pow2At32()
    ensures Pow(2, 32) == R32
  {
    assert Pow(2, 8) == 0x100;
    PowAdd(2, 8, 8);
    PowAdd(2, 16, 16);
  }

  lemma Pow2At64()
    ensures Pow(2, 64) == R64
  {
    Pow2At32();
    PowAdd(2, 32, 32);
  }

  lemma Make64Joins(hi: Word, lo: Word)
    requires hi < R32 && lo < R32
    ensures Make64(hi, lo) == hi * R32 + lo < R64
  {
    Pow2At32();
    OrDisjoint(hi, 32, lo);
  }

  // ----- Shifting a word, the gap filled from a neighbour -----

  lemma ShiftArith(w: int, p: int, q: int)
    requires 0 < p && 0 < q && 0 <= w < p * q
    ensures (w * p) / (p * q) == w / q < p && (w * p) % (p * q) == (w % q) * p
    ensures w * p == (w / q) * (p * q) + (w % q) * p && 0 <= (w % q) * p <= p * q - p
  {
    var h, l := w / q, w % q;
    assert w == q * h + l;
    assert w * p == h * (p * q) + l * p;
    MulMonotone(p, l, q - 1);
    assert p * (q - 1) == p * q - p;
    DivModUnique(w * p, p * q, h, l * p);
    if p <= h {
      MulMonotone(q, p, h);
    }
  }

  lemma PowersSplitWord(shift: nat)
    requires shift <= 64
    ensures 0 < Pow(2, shift) && 0 < Pow(2, 64 - shift) && Pow(2, shift) * Pow(2, 64 - shift) == R64
  {
    PowPositive(2, shift);
    PowPositive(2, 64 - shift);
    PowAdd(2, shift, 64 - shift);
    Pow2At64();
  }

  /** One word of a right shift: the high bits move down, the low bits of the word above fill the gap. */
  lemma RightLimb(w: Word, above: Word, shift: nat)
    requires shift <= 64
    ensures 0 < Pow(2, shift)
    ensures var out := BitOr(Shr(w, shift), Shl64(above, 64 - shift));
      out < R64 && out * Pow(2, shift) + w % Pow(2, shift) == w + (above % Pow(2, shift)) * R64
  {
    hide Pow, BitOr;
    var p, q := Pow(2, shift), Pow(2, 64 - shift);
    PowersSplitWord(shift);
    HighBits(w, p, q);
    LowBitsUp(above, p, q);
    OrCommutes(Shr(w, shift), Shl64(above, 64 - shift));
    OrDisjoint(above % p, 64 - shift, w / p);
    RightLimbArith(w, p, q, above % p);
  }

  /** The bits of a word above position p fit below q. */
  lemma HighBits(w: int, p: int, q: int)
    requires 0 < p && 0 < q && 0 <= w < p * q
    ensures 0 <= w / p < q
  {
    ShiftArith(w, q, p);
  }

  /** The bits below position p, moved to the top of the word. */
  lemma LowBitsUp(above: int, p: int, q: int)
    requires 0 < p && 0 < q && 0 <= above < p * q
    ensures (above * q) % (p * q) == (above % p) * q && 0 <= (above % p) * q <= p * q - q
  {
    ShiftArith(above, q, p);
  }

  lemma RightLimbArith(w: int, p: int, q: int, low: int)
    requires 0 < p
    ensures (low * q + w / p) * p + w % p == w + low * (p * q)
  {
    assert w == p * (w / p) + w % p;
    assert (low * q + w / p) * p == low * (p * q) + p * (w / p);
  }

  // ----- Products -----

  /** The 64x64-bit product with a carried-in bias, every operation wrapping at 64 bits. */
  function Umul128(x: Word, y: Word, bias: Word): (Word, Word)
  {
    var lower := Add64(Mul64(Lo32(x), Lo32(y)), Lo32(bias));
    var higher := Mul64(Hi32(x), Hi32(y));
    var mid1 := Add64(Mul64(Lo32(x), Hi32(y)), Hi32(bias));
    var mid2 := Add64(Mul64(Hi32(x), Lo32(y)), Hi32(lower));
    var t := Add64(Lo32(mid1), Lo32(mid2));
    Make64Joins(Lo32(t), Lo32(lower));
    (Add64(Add64(Add64(higher, Hi32(mid1)), Hi32(mid2)), Hi32(t)), Make64(Lo32(t), Lo32(lower)))
  }

  lemma HalfProduct(a: int, b: int, c: int, r: int)
    requires 0 <= a < r && 0 <= b < r && 0 <= c < r
    ensures 0 <= a * b && a * b + c < r * r
  {
    MulMonotone(a, b, r - 1);
    MulMonotone(r - 1, a, r - 1);
    assert (r - 1) * (r - 1) + r <= r * r;
  }

  lemma HalfProduct64(a: Word, b: Word, c: Word)
    requires a < R32 && b < R32 && c < R32
    ensures 0 <= a * b && Mul64(a, b) == a * b && Add64(a * b, c) == a * b + c
  {
    HalfProduct(a, b, c, R32);
  }

  lemma Split32(x: Word)
    ensures x == Hi32(x) * R32 + Lo32(x) && Hi32(x) < R32 && Lo32(x) < R32
  {
  }

  /** Schoolbook multiplication of two-digit numbers in radix r, with the carries named. */
  lemma Schoolbook(r: int, x: int, y: int, bias: int, x1: int, x0: int, y1: int, y0: int, b1: int, b0: int,
                   lowHi: int, lowLo: int, m1Hi: int, m1Lo: int, m2Hi: int, m2Lo: int, tHi: int, tLo: int)
    requires x == x1 * r + x0 && y == y1 * r + y0 && bias == b1 * r + b0
    requires x0 * y0 + b0 == lowHi * r + lowLo
    requires x0 * y1 + b1 == m1Hi * r + m1Lo
    requires x1 * y0 + lowHi == m2Hi * r + m2Lo
    requires m1Lo + m2Lo == tHi * r + tLo
    ensures x * y + bias == (x1 * y1 + m1Hi + m2Hi + tHi) * (r * r) + (tLo * r + lowLo)
  {
    assert (x1 * r + x0) * (y1 * r + y0) == x1 * y1 * (r * r) + (x0 * y1 + x1 * y0) * r + x0 * y0;
    assert (x0 * y1 + x1 * y0) * r == (m1Hi * r + m1Lo - b1 + m2Hi * r + m2Lo - lowHi) * r;
    assert (m1Hi * r + m2Hi * r + tHi * r) * r == (m1Hi + m2Hi + tHi) * (r * r);
  }

  lemma HighWordFits(x: int, y: int, bias: int, hi: int, lo: int, b: int)
    requires 0 <= x < b && 0 <= y < b && 0 <= bias < b && 0 <= lo
    requires x * y + bias == hi * b + lo
    ensures hi < b
  {
    HalfProduct(x, y, bias, b);
    if b <= hi {
      MulMonotone(b, b, hi);
    }
  }

  /** The sum of the high parts cannot wrap once the exact result is known to fit. */
  lemma AddChain(a: Word, b: Word, c: Word, d: Word)
    requires a + b + c + d < R64
    ensures Add64(Add64(Add64(a, b), c), d) == a + b + c + d && Add64(a, b) == a + b
  {
  }

  /** No intermediate of the 128-bit product overflows, and the two words returned are exact. */
  lemma Umul128Exact(x: Word, y: Word, bias: Word)
    ensures var (hi, lo) := Umul128(x, y, bias);
      x * y + bias == hi * R64 + lo
  {
    hide Add64, Mul64, Hi32, Lo32, Make64;
    var x1, x0, y1, y0, b1, b0 := Hi32(x), Lo32(x), Hi32(y), Lo32(y), Hi32(bias), Lo32(bias);
    Split32(x);
    Split32(y);
    Split32(bias);
    HalfProduct64(x0, y0, b0);
    HalfProduct64(x0, y1, b1);
    HalfProduct64(x1, y1, 0);
    var lower := Add64(Mul64(x0, y0), b0);
    Split32(lower);
    HalfProduct64(x1, y0, Hi32(lower));
    var mid1, mid2 := Add64(Mul64(x0, y1), b1), Add64(Mul64(x1, y0), Hi32(lower));
    Split32(mid1);
    Split32(mid2);
    var t := Add64(Lo32(mid1), Lo32(mid2));
    AddChain(Lo32(mid1), Lo32(mid2), 0, 0);
    Split32(t);
    Make64Joins(Lo32(t), Lo32(lower));
    var hi, lo := x1 * y1 + Hi32(mid1) + Hi32(mid2) + Hi32(t), Lo32(t) * R32 + Lo32(lower);
    Schoolbook(R32, x, y, bias, x1, x0, y1, y0, b1, b0, Hi32(lower), Lo32(lower),
               Hi32(mid1), Lo32(mid1), Hi32(mid2), Lo32(mid2), Hi32(t), Lo32(t));
    HighWordFits(x, y, bias, hi, lo, R64);
    AddChain(x1 * y1, Hi32(mid1), Hi32(mid2), Hi32(t));
  }
}
