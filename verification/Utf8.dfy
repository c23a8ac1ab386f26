/** The UTF-8 encoder of section 3 of RFC 3629, on every code below 0x200000, surrogates included. */
module Utf8 {
  import opened Powers
  import opened Words

  type Byte = x: int | 0 <= x < 0x100
  type Code = x: int | 0 <= x < 0x20_0000

  const MASK: seq<Byte> := [0, 0x1f, 0xf, 0x7]
  const HDR: seq<Byte> := [0, 0xc0, 0xe0, 0xf0]

  function Cont(code: nat): Byte { 0x80 + code % 64 }

  /** Lead byte by length, then six bits in each further byte. */
  function Encode(code: Code): seq<Byte>
  {
    if code < 0x80 then [code]
    else if code < 0x800 then [0xc0 + code / 64, Cont(code)]
    else if code < 0x1_0000 then [0xe0 + code / 64 / 64, Cont(code / 64), Cont(code)]
    else [0xf0 + code / 64 / 64 / 64, Cont(code / 64 / 64), Cont(code / 64), Cont(code)]
  }

  lemma OrSixBits(x: nat)
    requires x < 64
    ensures BitOr(0x80, x) == 0x80 + x
  {
    assert Pow(2, 6) == 64;
    OrDisjoint(2, 6, x);
  }

  lemma SmallPowers()
    ensures Pow(2, 5) == 32 && Pow(2, 4) == 16 && Pow(2, 3) == 8
  {
  }

  lemma OrHeader(count: nat, x: nat)
    requires 1 <= count <= 3 && x <= MASK[count]
    ensures BitOr(HDR[count], x) == HDR[count] + x < 0x100
  {
    hide BitOr, Pow;
    SmallPowers();
    if count == 1 {
      OrDisjoint(6, 5, x);
    } else if count == 2 {
      OrDisjoint(14, 4, x);
    } else {
      OrDisjoint(30, 3, x);
    }
  }

  datatype Option<T> = None | Some(value: T)

  /** The encoder: continuation bytes are collected backwards, then written out in order. The first loop
      looks up a mask for each byte; None stands for a look-up past the four masks. That happens exactly
      from code 0x200000 on. */
  method ToUtf8(code0: Word32) returns (out: Option<seq<Byte>>, nWritten: nat)
    ensures out.Some? <==> code0 < 0x20_0000
    ensures out.Some? ==> out.value == Encode(code0) && nWritten == |out.value|
  {
    hide BitOr, Shifted, Encode, Cont;
    var code: nat := code0;
    OneByte(code0);
    if code < 0x80 {
      return Some([code]), 1;
    }
    var ch := new Byte[4];
    var count := 0;
    while true
      invariant 0 <= count <= 3
      invariant code == Shifted(code0, count)
      invariant forall i :: 0 <= i < count ==> ch[i] == Cont(Shifted(code0, i))
      invariant code0 >= LowestFor(count + 1)
      decreases 4 - count
    {
      ContIs(code);
      ch[count] := BitOr(0x80, code % 64);
      code := code / 64;
      count := count + 1;
      MaskDecides(code0, count);
      if count == |MASK| {
        return None, 0;
      }
      if code <= MASK[count] {
        break;
      }
    }
    OrHeader(count, code);
    var bytes := [BitOr(HDR[count], code)];
    nWritten := count + 1;
    ghost var lead, all := bytes, ch[..count];
    count := count - 1;
    bytes := bytes + [ch[count]];
    while count > 0
      invariant 0 <= count < |all| <= 3 && all == ch[..|all|]
      invariant bytes == lead + Reversed(all[count..])
    {
      count := count - 1;
      bytes := bytes + [ch[count]];
    }
    assert all[0..] == all;
    Assembled(code0, all, bytes);
    out := Some(bytes);
  }

  /** A code with its lowest n six-bit digits taken off. */
  function Shifted(code: nat, n: nat): nat
    decreases n
  {
    if n == 0 then code else Shifted(code, n - 1) / 64
  }

  /** The lowest code that needs n continuation bytes, where four would be one too many. */
  function LowestFor(n: nat): nat
  {
    if n == 0 then 0 else if n == 1 then 0x80 else if n == 2 then 0x800 else if n == 3 then 0x1_0000 else 0x20_0000
  }

  lemma OneByte(code: nat)
    ensures Shifted(code, 0) == code
    ensures code < 0x80 ==> Encode(code) == [code]
  {
  }

  lemma ContIs(code: nat)
    ensures BitOr(0x80, code % 64) == Cont(code)
  {
    OrSixBits(code % 64);
  }

  /** A mask is exceeded exactly by the codes that need another byte. */
  lemma MaskDecides(code: nat, n: nat)
    requires 1 <= n <= 4
    ensures Shifted(code, n) == Shifted(code, n - 1) / 64
    ensures n < 4 ==> (Shifted(code, n) > MASK[n] <==> code >= LowestFor(n + 1))
  {
    Quotients(code);
    assert Shifted(code, 0) == code && Shifted(code, 1) == Shifted(code, 0) / 64;
    assert Shifted(code, 2) == Shifted(code, 1) / 64 && Shifted(code, 3) == Shifted(code, 2) / 64;
  }

  lemma Assembled(code: nat, all: seq<Byte>, bytes: seq<Byte>)
    requires 1 <= |all| <= 3 && LowestFor(|all|) <= code < LowestFor(|all| + 1)
    requires forall i :: 0 <= i < |all| ==> all[i] == Cont(Shifted(code, i))
    requires bytes == [HDR[|all|] + Shifted(code, |all|)] + Reversed(all)
    ensures bytes == Encode(code)
  {
    hide Cont, Shifted, Reversed;
    ShiftedDigits(code);
    ReversedBytes(all);
  }

  lemma ShiftedDigits(code: nat)
    ensures Shifted(code, 0) == code && Shifted(code, 1) == code / 64
    ensures Shifted(code, 2) == code / 64 / 64 && Shifted(code, 3) == code / 64 / 64 / 64
  {
    assert Shifted(code, 2) == Shifted(code, 1) / 64 && Shifted(code, 3) == Shifted(code, 2) / 64;
  }

  lemma ReversedBytes(s: seq<Byte>)
    requires 1 <= |s| <= 3
    ensures Reversed(s) == if |s| == 1 then [s[0]] else if |s| == 2 then [s[1], s[0]] else [s[2], s[1], s[0]]
  {
    hide Reversed;
    ReversedOne(s[|s| - 1]);
    if |s| == 1 {
      assert s == [s[0]];
    } else if |s| == 2 {
      assert s == [s[0]] + [s[1]];
      ReversedCons(s[0], [s[1]]);
    } else {
      var rest := [s[1]] + [s[2]];
      assert s == [s[0]] + rest;
      ReversedCons(s[1], [s[2]]);
      ReversedCons(s[0], rest);
      assert Reversed(s) == [s[2]] + [s[1]] + [s[0]];
    }
  }

  lemma ReversedOne(b: Byte)
    ensures Reversed([b]) == [b]
  {
    assert [b][1..] == [];
  }

  lemma ReversedCons(b: Byte, rest: seq<Byte>)
    ensures Reversed([b] + rest) == Reversed(rest) + [b]
  {
    assert ([b] + rest)[1..] == rest;
  }

  ghost function Reversed(s: seq<Byte>): seq<Byte>
  {
    if s == [] then [] else Reversed(s[1..]) + [s[0]]
  }

  // ----- Decoding -----

  /** How many bytes a lead byte announces; none for a continuation byte or a byte above 0xf7. */
  function LengthOf(lead: Byte): nat
  {
    if lead < 0x80 then 1
    else if 0xc0 <= lead < 0xe0 then 2
    else if 0xe0 <= lead < 0xf0 then 3
    else if 0xf0 <= lead < 0xf8 then 4
    else 0
  }

  predicate IsCont(b: Byte) { 0x80 <= b < 0xc0 }

  /** A lead byte followed by as many continuation bytes as it announces. */
  predicate IsPattern(s: seq<Byte>)
  {
    s != [] && |s| == LengthOf(s[0]) && forall i :: 1 <= i < |s| ==> IsCont(s[i])
  }

  function SixBits(b: int): int { b % 64 }

  /** The payload of a lead byte, the length bits taken off. */
  function Lead(b: int): int
  {
    if b < 0x80 then b else if b < 0xe0 then b - 0xc0 else if b < 0xf0 then b - 0xe0 else b - 0xf0
  }

  /** The number such a byte sequence stands for, in shortest form or not. */
  function PatternValue(s: seq<Byte>): Code
    requires IsPattern(s)
  {
    if |s| == 1 then Lead(s[0])
    else if |s| == 2 then Lead(s[0]) * 64 + SixBits(s[1])
    else if |s| == 3 then (Lead(s[0]) * 64 + SixBits(s[1])) * 64 + SixBits(s[2])
    else ((Lead(s[0]) * 64 + SixBits(s[1])) * 64 + SixBits(s[2])) * 64 + SixBits(s[3])
  }

  lemma EncodeIsPattern(code: Code)
    ensures IsPattern(Encode(code)) && PatternValue(Encode(code)) == code
  {
    Quotients(code);
    ContBack(code % 64);
    ContBack(code / 64 % 64);
    ContBack(code / 64 / 64 % 64);
    hide SixBits;
  }

  lemma ContBack(x: nat)
    requires x < 64
    ensures SixBits(0x80 + x) == x
  {
  }

  /** A code as its six-bit digits. */
  lemma Quotients(code: nat)
    ensures code == code / 64 * 64 + code % 64
    ensures code / 64 == code / 64 / 64 * 64 + code / 64 % 64
    ensures code / 64 / 64 == code / 64 / 64 / 64 * 64 + code / 64 / 64 % 64
  {
  }

  lemma ContBits(b: Byte)
    requires IsCont(b)
    ensures b == 0x80 + SixBits(b) && 0 <= SixBits(b) < 64
  {
  }

  /** Appending a six-bit digit is undone by division. */
  lemma DigitOff(q: nat, r: nat)
    requires r < 64
    ensures (q * 64 + r) / 64 == q && (q * 64 + r) % 64 == r
  {
  }

  /** No byte sequence for the same number is shorter, and none of the same length is different. */
  lemma ShortestForm(s: seq<Byte>)
    requires IsPattern(s)
    ensures |Encode(PatternValue(s))| <= |s|
    ensures |Encode(PatternValue(s))| == |s| ==> Encode(PatternValue(s)) == s
  {
    hide SixBits;
    var lead: nat := Lead(s[0]);
    if |s| == 1 {
    } else if |s| == 2 {
      ContBits(s[1]);
      DigitOff(lead, SixBits(s[1]));
    } else if |s| == 3 {
      ContBits(s[1]);
      ContBits(s[2]);
      DigitOff(lead, SixBits(s[1]));
      DigitOff(lead * 64 + SixBits(s[1]), SixBits(s[2]));
    } else {
      ContBits(s[1]);
      ContBits(s[2]);
      ContBits(s[3]);
      DigitOff(lead, SixBits(s[1]));
      DigitOff(lead * 64 + SixBits(s[1]), SixBits(s[2]));
      DigitOff((lead * 64 + SixBits(s[1])) * 64 + SixBits(s[2]), SixBits(s[3]));
    }
  }

  function Decode(s: seq<Byte>): Option<seq<Code>>
  {
    if s == [] then Some([])
    else
      var n := LengthOf(s[0]);
      if n == 0 || |s| < n || !IsPattern(s[..n]) then None
      else
        match Decode(s[n..])
        case None => None
        case Some(rest) => Some([PatternValue(s[..n])] + rest)
  }

  function EncodeAll(codes: seq<Code>): seq<Byte>
  {
    if codes == [] then [] else Encode(codes[0]) + EncodeAll(codes[1..])
  }

  /** Concatenated encodings decode to the list of codes they came from. */
  lemma {:induction false} DecodeEncoded(codes: seq<Code>)
    ensures Decode(EncodeAll(codes)) == Some(codes)
  {
    if codes != [] {
      hide Encode, PatternValue;
      var first, rest, s := Encode(codes[0]), EncodeAll(codes[1..]), EncodeAll(codes);
      EncodeIsPattern(codes[0]);
      assert s[0] == first[0] && s[..|first|] == first && s[|first|..] == rest;
      DecodeEncoded(codes[1..]);
      assert codes == [codes[0]] + codes[1..];
    }
  }

  // ----- Order -----

  ghost predicate LexLess(a: seq<int>, b: seq<int>)
  {
    b != [] && (a == [] || a[0] < b[0] || (a[0] == b[0] && LexLess(a[1..], b[1..])))
  }

  /** The first difference of two sequences is at k, and there s is smaller. */
  ghost predicate SmallerAt(s: seq<int>, t: seq<int>, k: nat)
  {
    k < |s| && k < |t| && s[..k] == t[..k] && s[k] < t[k]
  }

  lemma {:induction false} SmallerDecides(s: seq<int>, t: seq<int>, k: nat)
    requires SmallerAt(s, t, k)
    ensures LexLess(s, t) && !LexLess(t, s)
  {
    if k != 0 {
      assert s[0] == s[..k][0] == t[..k][0] == t[0];
      assert s[1..][..k - 1] == s[..k][1..] && t[1..][..k - 1] == t[..k][1..];
      SmallerDecides(s[1..], t[1..], k - 1);
    }
  }

  lemma {:induction false} CommonPrefix(p: seq<int>, x: seq<int>, y: seq<int>)
    ensures LexLess(p + x, p + y) <==> LexLess(x, y)
  {
    if p == [] {
      assert p + x == x && p + y == y;
    } else {
      assert (p + x)[1..] == p[1..] + x && (p + y)[1..] == p[1..] + y;
      CommonPrefix(p[1..], x, y);
    }
  }

  /** The smaller code has the smaller byte where the encodings first differ. */
  lemma SmallerCode(c: Code, d: Code) returns (k: nat)
    requires c < d
    ensures SmallerAt(Encode(c), Encode(d), k)
  {
    Quotients(c);
    Quotients(d);
    if c >= 0x1_0000 {
      k := FourByteOrder(c, d);
    } else if 0x800 <= c && d < 0x1_0000 {
      k := ThreeByteOrder(c, d);
    } else if 0x80 <= c && d < 0x800 {
      k := if c / 64 == d / 64 then 1 else 0;
    } else {
      k := 0;
    }
  }

  lemma FourByteOrder(c: Code, d: Code) returns (k: nat)
    requires 0x1_0000 <= c < d
    ensures SmallerAt(Encode(c), Encode(d), k)
  {
    Quotients(c);
    Quotients(d);
    if c / 64 / 64 / 64 != d / 64 / 64 / 64 {
      k := 0;
    } else if c / 64 / 64 != d / 64 / 64 {
      k := 1;
    } else if c / 64 != d / 64 {
      k := 2;
    } else {
      k := 3;
    }
  }

  lemma ThreeByteOrder(c: Code, d: Code) returns (k: nat)
    requires 0x800 <= c < d < 0x1_0000
    ensures SmallerAt(Encode(c), Encode(d), k)
  {
    Quotients(c);
    Quotients(d);
    if c / 64 / 64 != d / 64 / 64 {
      k := 0;
    } else if c / 64 != d / 64 {
      k := 1;
    } else {
      k := 2;
    }
  }

  /** Byte order of two encoded texts is the order of the texts by code. */
  lemma {:induction false} OrderPreserved(a: seq<Code>, b: seq<Code>)
    ensures LexLess(EncodeAll(a), EncodeAll(b)) <==> LexLess(a, b)
  {
    if a != [] && b != [] {
      hide Encode;
      var x, y := EncodeAll(a[1..]), EncodeAll(b[1..]);
      if a[0] == b[0] {
        CommonPrefix(Encode(a[0]), x, y);
        OrderPreserved(a[1..], b[1..]);
      } else if a[0] < b[0] {
        var k := SmallerCode(a[0], b[0]);
        SmallerAfter(Encode(a[0]), x, Encode(b[0]), y, k);
        SmallerDecides(EncodeAll(a), EncodeAll(b), k);
      } else {
        var k := SmallerCode(b[0], a[0]);
        SmallerAfter(Encode(b[0]), y, Encode(a[0]), x, k);
        SmallerDecides(EncodeAll(b), EncodeAll(a), k);
      }
    } else if b != [] {
      EncodeIsPattern(b[0]);
    }
  }

  lemma SmallerAfter(s: seq<int>, x: seq<int>, t: seq<int>, y: seq<int>, k: nat)
    requires SmallerAt(s, t, k)
    ensures SmallerAt(s + x, t + y, k)
  {
    assert (s + x)[..k] == s[..k] && (t + y)[..k] == t[..k];
  }
}
