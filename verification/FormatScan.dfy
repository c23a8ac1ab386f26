/** Scanning of numbers and argument ids inside a format string. */
module FormatScan {
  import opened Powers
  import opened Words

  const INT_MAX: nat := 0x7fff_ffff

  predicate IsDigit(c: char) { '0' <= c <= '9' }

  function DigitValue(c: char): (d: nat)
    requires IsDigit(c)
    ensures d <= 9
  {
    c as int - '0' as int
  }

  predicate IsNameStart(c: char) { 'a' <= c <= 'z' || 'A' <= c <= 'Z' || c == '_' }

  predicate IsNameChar(c: char) { IsNameStart(c) || IsDigit(c) }

  // ----- Numbers -----

  /** The first position from p on that holds no digit. */
  function DigitsEnd(s: string, p: nat): (e: nat)
    requires p <= |s|
    ensures p <= e <= |s| && (forall i :: p <= i < e ==> IsDigit(s[i])) && (e < |s| ==> !IsDigit(s[e]))
    decreases |s| - p
  {
    if p < |s| && IsDigit(s[p]) then DigitsEnd(s, p + 1) else p
  }

  lemma {:induction false} DigitsEndIs(s: string, p: nat, e: nat)
    requires p <= e <= |s| && (forall i :: p <= i < e ==> IsDigit(s[i])) && (e < |s| ==> !IsDigit(s[e]))
    ensures DigitsEnd(s, p) == e
    decreases e - p
  {
    if p < e {
      DigitsEndIs(s, p + 1, e);
    }
  }

  predicate AllDigits(s: string) { forall i :: 0 <= i < |s| ==> IsDigit(s[i]) }

  function Decimal(s: string): nat
    requires forall i :: 0 <= i < |s| ==> IsDigit(s[i])
  {
    if s == [] then 0 else Decimal(s[..|s| - 1]) * 10 + DigitValue(s[|s| - 1])
  }

  function Pow10(n: nat): nat { if n == 0 then 1 else 10 * Pow10(n - 1) }

  lemma {:induction false} DecimalFits(s: string)
    requires forall i :: 0 <= i < |s| ==> IsDigit(s[i])
    ensures Decimal(s) < Pow10(|s|)
  {
    if s != [] {
      DecimalFits(s[..|s| - 1]);
    }
  }

  lemma Pow10At9()
    ensures Pow10(9) == 1000000000
  {
    assert Pow10(5) == 100000;
  }

  // ----- Numbers written out -----

  /** A number in decimal, without leading zeros. */
  function DecimalText(n: nat): (text: string)
    ensures text != []
  {
    if n < 10 then ["0123456789"[n]] else DecimalText(n / 10) + ["0123456789"[n % 10]]
  }

  lemma DigitsAre(c: char)
    ensures IsDigit(c) <==> c in "0123456789"
  {
  }

  lemma NamesAre(c: char)
    ensures IsNameStart(c) <==> c in "abcdefghijklmnopqrstuvwxyz" || c in "ABCDEFGHIJKLMNOPQRSTUVWXYZ" || c == '_'
  {
  }

  lemma DigitWorth(d: nat)
    requires d < 10
    ensures IsDigit("0123456789"[d]) && DigitValue("0123456789"[d]) == d
  {
  }

  /** What is written is read back. */
  lemma {:induction false} DecimalRoundTrip(n: nat)
    ensures AllDigits(DecimalText(n)) && Decimal(DecimalText(n)) == n
  {
    hide DigitValue, IsDigit;
    DigitWorth(n % 10);
    if n < 10 {
      assert ["0123456789"[n]][..0] == [];
    } else {
      var text, last := DecimalText(n / 10), "0123456789"[n % 10];
      DecimalRoundTrip(n / 10);
      assert (text + [last])[..|text|] == text;
    }
  }

  lemma {:induction false} DecimalTextLength(n: nat, k: nat)
    requires 0 < k && n < Pow10(k)
    ensures |DecimalText(n)| <= k
    decreases k
  {
    if n >= 10 {
      DecimalTextLength(n / 10, k - 1);
    }
  }

  /** Zeros in front do not change the value. */
  lemma {:induction false} LeadingZero(s: string)
    requires AllDigits(s)
    ensures AllDigits("0" + s) && Decimal("0" + s) == Decimal(s)
  {
    if s == [] {
      assert "0" + s == "0" && "0"[..0] == [];
    } else {
      var init := s[..|s| - 1];
      assert ("0" + s)[..|s|] == "0" + init;
      LeadingZero(init);
      assert forall i :: 0 < i < |"0" + s| ==> ("0" + s)[i] == s[i - 1];
    }
  }

  lemma Pow10At10()
    ensures Pow10(10) == 10000000000
  {
    Pow10At9();
    assert Pow10(10) == 10 * Pow10(9);
  }

  /** A number written out is worth itself if it is at most 2147483647, and the error value otherwise. */
  lemma NumberReadBack(s: string, begin: nat, n: nat, errorValue: int)
    requires begin < |s| && s[begin..DigitsEnd(s, begin)] == DecimalText(n)
    ensures IntValue(s, begin, errorValue) == if n <= 2147483647 then n else errorValue
  {
    hide Decimal, DecimalText, Pow10;
    DecimalRoundTrip(n);
    Pow10At10();
    if n <= 2147483647 {
      DecimalTextLength(n, 10);
    }
  }

  /** What a run of digits is worth: its value while it has at most ten digits and fits in an int. */
  function IntValue(s: string, begin: nat, errorValue: int): int
    requires begin < |s|
  {
    var end := DigitsEnd(s, begin);
    if end - begin <= 10 && Decimal(s[begin..end]) <= INT_MAX then Decimal(s[begin..end]) else errorValue
  }

  /** The 32-bit accumulator wraps after ten digits, but only the last two values are looked at. */
  method ParseNonnegativeInt(s: string, begin: nat, errorValue: int) returns (r: int, end: nat)
    requires begin < |s| && IsDigit(s[begin])
    ensures end == DigitsEnd(s, begin) && end > begin
    ensures r == IntValue(s, begin, errorValue)
    ensures forall n: nat :: s[begin..end] == DecimalText(n) ==> r == if n <= 2147483647 then n else errorValue
  {
    hide Decimal, Pow10, DecimalText;
    forall n: nat | s[begin..DigitsEnd(s, begin)] == DecimalText(n)
      ensures IntValue(s, begin, errorValue) == if n <= 2147483647 then n else errorValue
    {
      NumberReadBack(s, begin, n, errorValue);
    }
    var value: Word32, prev: Word32 := 0, 0;
    var p := begin;
    ghost var stop := DigitsEnd(s, begin);
    prev := value;
    value := (value * 10 + DigitValue(s[p])) % R32;
    p := p + 1;
    FirstDigit(s[begin..p]);
    assert s[begin..p][..0] == s[begin..p - 1];
    while p != |s| && IsDigit(s[p])
      invariant begin < p <= stop
      invariant value == Decimal(s[begin..p]) % R32
      invariant prev == Decimal(s[begin..p - 1]) % R32
    {
      prev := value;
      NextDigit(s[begin..p], s[p]);
      assert s[begin..p + 1] == s[begin..p] + [s[p]];
      value := (value * 10 + DigitValue(s[p])) % R32;
      p := p + 1;
    }
    var numDigits := p - begin;
    end := p;
    ghost var digits := s[begin..p];
    Pow10At9();
    NextDigit(s[begin..p - 1], s[p - 1]);
    assert digits == s[begin..p - 1] + [s[p - 1]];
    if numDigits <= 9 {
      ShortFits(digits);
      return value, end;
    }
    if numDigits == 10 {
      ShortFits(s[begin..p - 1]);
    }
    r := if numDigits == 10 && prev * 10 + DigitValue(s[p - 1]) <= INT_MAX then value else errorValue;
  }

  lemma FirstDigit(s: string)
    requires |s| == 1 && IsDigit(s[0])
    ensures Decimal(s) == DigitValue(s[0]) && Decimal(s[..0]) == 0
  {
  }

  lemma NextDigit(s: string, c: char)
    requires (forall i :: 0 <= i < |s| ==> IsDigit(s[i])) && IsDigit(c)
    ensures Decimal(s + [c]) == Decimal(s) * 10 + DigitValue(c)
    ensures Decimal(s + [c]) % R32 == (Decimal(s) % R32 * 10 + DigitValue(c)) % R32
  {
    assert (s + [c])[..|s|] == s;
    WrapStep(Decimal(s), DigitValue(c));
  }

  lemma WrapStep(x: nat, d: nat)
    ensures (x * 10 + d) % R32 == (x % R32 * 10 + d) % R32
  {
    var y := x % R32 * 10 + d;
    DivModUnique(x * 10 + d, R32, x / R32 * 10 + y / R32, y % R32);
  }

  lemma ShortFits(s: string)
    requires |s| <= 9 && forall i :: 0 <= i < |s| ==> IsDigit(s[i])
    ensures Decimal(s) < 1000000000 && Decimal(s) % R32 == Decimal(s)
  {
    hide Decimal;
    DecimalFits(s);
    Pow10At9();
    Pow10Monotone(|s|, 9);
  }

  lemma {:induction false} Pow10Monotone(m: nat, n: nat)
    requires m <= n
    ensures 0 < Pow10(m) <= Pow10(n)
    decreases n
  {
    if m < n {
      Pow10Monotone(m, n - 1);
    } else if n != 0 {
      Pow10Monotone(n - 1, n - 1);
    }
  }

  // ----- Argument ids -----

  datatype ArgId = BadArgId | Index(id: int, end: nat) | Name(name: string, end: nat)

  /** The first position from p on that does not continue a name. */
  function NameEnd(s: string, p: nat): (e: nat)
    requires p <= |s|
    ensures p <= e <= |s| && (forall i :: p <= i < e ==> IsNameChar(s[i])) && (e < |s| ==> !IsNameChar(s[e]))
    decreases |s| - p
  {
    if p < |s| && IsNameChar(s[p]) then NameEnd(s, p + 1) else p
  }

  lemma {:induction false} NameEndIs(s: string, p: nat, e: nat)
    requires p <= e <= |s| && (forall i :: p <= i < e ==> IsNameChar(s[i])) && (e < |s| ==> !IsNameChar(s[e]))
    ensures NameEnd(s, p) == e
    decreases e - p
  {
    if p < e {
      NameEndIs(s, p + 1, e);
    }
  }

  /** A number without leading zeros, followed by '}' or ':', or a name. */
  function ArgIdAt(s: string, begin: nat): (r: ArgId)
    requires begin < |s|
    ensures !r.BadArgId? ==> begin < r.end <= |s|
  {
    if IsDigit(s[begin]) then
      var end := if s[begin] == '0' then begin + 1 else DigitsEnd(s, begin);
      if end == |s| || (s[end] != '}' && s[end] != ':') then BadArgId
      else Index(if s[begin] == '0' then 0 else IntValue(s, begin, INT_MAX), end)
    else if IsNameStart(s[begin]) then Name(s[begin..NameEnd(s, begin + 1)], NameEnd(s, begin + 1))
    else BadArgId
  }

  /** The text of an id given by number: no leading zeros. */
  predicate IsIdNumber(text: string)
  {
    text != [] && AllDigits(text) && (text[0] == '0' ==> |text| == 1)
  }

  /** The id a number stands for; a number that does not fit becomes the largest int. */
  function IdValue(text: string): (id: int)
    requires IsIdNumber(text)
    ensures 0 <= id <= INT_MAX
  {
    if |text| <= 10 && Decimal(text) <= INT_MAX then Decimal(text) else INT_MAX
  }

  predicate IsName(text: string)
  {
    text != [] && IsNameStart(text[0]) && forall i :: 0 <= i < |text| ==> IsNameChar(text[i])
  }

  lemma {:induction false} NoLeadingZero(n: nat)
    ensures DecimalText(n)[0] == '0' ==> n == 0
  {
    if n >= 10 {
      NoLeadingZero(n / 10);
    }
  }

  /** Every number written out is an id, worth itself up to 2147483647 and that from there on. */
  lemma IdReadBack(n: nat)
    ensures IsIdNumber(DecimalText(n)) && IdValue(DecimalText(n)) == if n <= 2147483647 then n else 2147483647
  {
    hide Decimal, Pow10;
    DecimalRoundTrip(n);
    NoLeadingZero(n);
    Pow10At10();
    if n <= 2147483647 {
      DecimalTextLength(n, 10);
    }
  }

  /** A number id is accepted up to end exactly when that text is one and '}' or ':' follows. */
  lemma NumberIdAccepted(s: string, begin: nat, id: int, end: nat)
    requires begin < |s|
    ensures ArgIdAt(s, begin) == Index(id, end)
            <==> begin < end < |s| && IsIdNumber(s[begin..end]) && (s[end] == '}' || s[end] == ':')
                 && id == IdValue(s[begin..end])
  {
    hide Decimal;
    if ArgIdAt(s, begin) == Index(id, end) {
      assert forall i :: 0 <= i < end - begin ==> s[begin..end][i] == s[begin + i];
      ZeroIsZero(s, begin);
    }
    if begin < end < |s| && IsIdNumber(s[begin..end]) && (s[end] == '}' || s[end] == ':') {
      forall i | begin <= i < end ensures IsDigit(s[i]) {
        assert s[i] == s[begin..end][i - begin];
      }
      DigitsEndIs(s, begin, end);
      ZeroIsZero(s, begin);
    }
  }

  lemma ZeroIsZero(s: string, begin: nat)
    requires begin < |s|
    ensures s[begin] == '0' ==> s[begin..begin + 1] == ['0'] && Decimal(s[begin..begin + 1]) == 0
  {
    if s[begin] == '0' {
      assert s[begin..begin + 1][..0] == [];
    }
  }

  /** A name is accepted up to end exactly when that text is one and nothing behind it continues it. */
  lemma NameAccepted(s: string, begin: nat, name: string, end: nat)
    requires begin < |s|
    ensures ArgIdAt(s, begin) == Name(name, end)
            <==> begin < end <= |s| && IsName(s[begin..end]) && (end < |s| ==> !IsNameChar(s[end]))
                 && name == s[begin..end]
  {
    if ArgIdAt(s, begin) == Name(name, end) {
      assert forall i :: 0 <= i < end - begin ==> s[begin..end][i] == s[begin + i];
    }
    if begin < end <= |s| && IsName(s[begin..end]) && (end < |s| ==> !IsNameChar(s[end])) {
      forall i | begin <= i < end ensures IsNameChar(s[i]) {
        assert s[i] == s[begin..end][i - begin];
      }
      assert s[begin] == s[begin..end][0];
      StartIsNoDigit(s[begin]);
      NameEndIs(s, begin + 1, end);
    }
  }

  lemma StartIsNoDigit(c: char)
    requires IsNameStart(c)
    ensures !IsDigit(c)
  {
  }

  /** A name is not a number, and neither is empty or starts with a brace or colon. */
  lemma NameIsNoNumber(text: string)
    ensures IsName(text) ==> !IsIdNumber(text)
    ensures IsName(text) || IsIdNumber(text) ==> text != [] && text[0] != '}' && text[0] != ':' && text[0] != '{'
    ensures !IsNameChar('}')
  {
  }

  method ParseArgId(s: string, begin: nat) returns (r: ArgId)
    requires begin < |s|
    ensures r == ArgIdAt(s, begin)
    ensures forall id, end: nat :: r == Index(id, end)
                              <==> begin < end < |s| && IsIdNumber(s[begin..end]) && (s[end] == '}' || s[end] == ':')
                                   && id == IdValue(s[begin..end])
    ensures forall name, end: nat :: r == Name(name, end)
                                <==> begin < end <= |s| && IsName(s[begin..end])
                                     && (end < |s| ==> !IsNameChar(s[end])) && name == s[begin..end]
  {
    hide IsIdNumber, IsName, IdValue;
    forall id, end: nat
      ensures ArgIdAt(s, begin) == Index(id, end)
              <==> begin < end < |s| && IsIdNumber(s[begin..end]) && (s[end] == '}' || s[end] == ':')
                   && id == IdValue(s[begin..end])
    {
      NumberIdAccepted(s, begin, id, end);
    }
    forall name, end: nat
      ensures ArgIdAt(s, begin) == Name(name, end)
              <==> begin < end <= |s| && IsName(s[begin..end])
                   && (end < |s| ==> !IsNameChar(s[end])) && name == s[begin..end]
    {
      NameAccepted(s, begin, name, end);
    }
    var c := s[begin];
    if IsDigit(c) {
      var index, p := 0, begin;
      if c != '0' {
        index, p := ParseNonnegativeInt(s, begin, INT_MAX);
      } else {
        p := p + 1;
      }
      if p == |s| || (s[p] != '}' && s[p] != ':') {
        return BadArgId;
      }
      return Index(index, p);
    }
    if !IsNameStart(c) {
      return BadArgId;
    }
    var it := begin + 1;
    while it != |s| && (IsNameStart(s[it]) || IsDigit(s[it]))
      invariant begin < it <= |s| && NameEnd(s, it) == NameEnd(s, begin + 1)
    {
      it := it + 1;
    }
    return Name(s[begin..it], it);
  }
}
