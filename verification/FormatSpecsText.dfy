/** Writing a format spec out and parsing it again; together with the order, what is accepted. */
module FormatSpecsText {
  import opened Powers
  import opened FormatScan
  import opened FormatSpecs
  import opened FormatSpecsOrder
  import Utf8

  // ----- What written parts say -----

  /** What part k says, with the argument counter at next. */
  function Apply(k: nat, text: seq<Unit>, specs: Specs, t: ArgType, next: int): Specs
    requires text != [] && Suits(k, text, t, next)
  {
    if k == 1 then specs.(align := ParseAlign(text[|text| - 1]), fill := if |text| == 1 then specs.fill else text[..|text| - 1])
    else if k == 2 then specs.(sign := if text[0] == ' ' then Space else if text[0] == '+' then Plus else specs.sign)
    else if k == 3 then specs.(alt := true)
    else if k == 4 then ZeroFlag(specs)
    else if k == 5 then
      var d := DynamicMeaning(text, specs.width, specs.widthRef, next, 0);
      specs.(width := d.value, widthRef := d.ref, widthKind := d.kind)
    else if k == 6 then
      var d := DynamicMeaning(text[1..], specs.precision, specs.precisionRef, next, 0);
      specs.(precision := d.value, precisionRef := d.ref, precisionKind := d.kind)
    else if k == 7 then specs.(localized := true)
    else
      var l := LetterOf(text[0], t);
      specs.(presentation := l.presentation, upper := specs.upper || l.upper)
  }

  lemma PartSuits(k: nat, w: Parts, t: ArgType, next: int)
    requires 1 <= k <= 8 && Written(w, t, next) && w[k - 1] != []
    ensures Suits(k, w[k - 1], t, NextAt(k, w, next))
  {
  }

  /** The specs after part k, present or not. */
  function After(k: nat, w: Parts, specs: Specs, t: ArgType, next: int): Specs
    requires 1 <= k <= 8 && Written(w, t, next)
  {
    if w[k - 1] == [] then specs
    else
      PartSuits(k, w, t, next);
      Apply(k, w[k - 1], specs, t, NextAt(k, w, next))
  }

  /** The specs after parts k to 8. */
  function Meaning(k: nat, w: Parts, specs: Specs, t: ArgType, next: int): Specs
    requires 1 <= k <= 9 && Written(w, t, next)
    decreases 9 - k
  {
    if k == 9 then specs else Meaning(k + 1, w, After(k, w, specs, t, next), t, next)
  }

  lemma OnePartOn(k: nat, w: Parts, specs: Specs, t: ArgType, next: int)
    requires 1 <= k <= 8 && Written(w, t, next)
    ensures Meaning(k, w, specs, t, next) == Meaning(k + 1, w, After(k, w, specs, t, next), t, next)
    ensures TextFrom(k, w) == w[k - 1] + TextFrom(k + 1, w)
    ensures w[k - 1] == [] ==> TextFrom(k, w) == TextFrom(k + 1, w)
  {
  }

  lemma NextStep(k: nat, w: Parts, next: int)
    requires 1 <= k <= 8
    ensures NextAt(k + 1, w, next)
            == if w[k - 1] == [] then NextAt(k, w, next) else Counted(k, w[k - 1], NextAt(k, w, next))
  {
    hide CounterAfter;
  }

  // ----- Where the parts begin -----

  /** What may follow a spec. */
  predicate CanFollow(w: Parts, tail: seq<Unit>) { w[7] == [] && tail != [] ==> tail[0] == '}' }

  lemma PartHead(k: nat, text: seq<Unit>, t: ArgType, next: int)
    requires text != [] && 2 <= k <= 8 && Suits(k, text, t, next)
    ensures StateOf(text[0]) == k
  {
    hide IsDynamic, LetterOf, IsArithmetic, IsSint, IsFloat;
    if k == 8 {
      LetterForAll(text[0], t);
    }
  }

  lemma {:induction false} HeadState(k: nat, w: Parts, t: ArgType, next: int, tail: seq<Unit>)
    requires 2 <= k <= 8 && Written(w, t, next) && CanFollow(w, tail)
    ensures var u := TextFrom(k, w) + tail; u == [] || k <= StateOf(u[0]) <= 9
    decreases 9 - k
  {
    hide StateOf, Suits, TextFrom, Written, Meaning;
    SplitText(k, w);
    if w[k - 1] != [] {
      PartSuits(k, w, t, next);
      PartHead(k, w[k - 1], t, NextAt(k, w, next));
    } else if k < 8 {
      HeadState(k + 1, w, t, next, tail);
    } else {
      assert TextFrom(8, w) + tail == tail;
      if tail != [] {
        ClosingBrace(tail[0]);
      }
    }
  }

  lemma SplitText(k: nat, w: Parts)
    requires 1 <= k <= 8
    ensures TextFrom(k, w) == w[k - 1] + TextFrom(k + 1, w)
    ensures w[k - 1] == [] ==> TextFrom(k, w) == TextFrom(k + 1, w)
    ensures TextFrom(9, w) == []
  {
  }

  lemma DigitStates(c: Unit)
    ensures IsDigit(c) ==> StateOf(c) == 4 || StateOf(c) == 5
  {
  }

  // ----- One part -----

  /** A part that is there is read as one token. */
  lemma FlagReads(k: nat, s: seq<Unit>, p: nat, text: seq<Unit>, specs: Specs, next: int, t: ArgType)
    requires text != [] && (2 <= k <= 4 || k == 7) && Suits(k, text, t, next)
    requires p < |s| && s[p] == text[0]
    ensures |text| == 1
    ensures PartsAfter(k - 1, s, p, specs, next, t) == PartsAfter(k, s, p + 1, Apply(k, text, specs, t, next), next, t)
  {
    hide DynamicAt, LetterOf, ParseAlign, PartsAfter, StateOf, IsArithmetic, IsSint, IsFloat;
    PartHead(k, text, t, next);
    TokenAt(s, p, specs, next, t);
    if k == 2 && text[0] == '-' {
      assert Apply(k, text, specs, t, next) == specs;
    }
  }

  /** A width or precision text is read whole, wherever it stands. */
  lemma DynamicReads(s: seq<Unit>, p: nat, text: seq<Unit>, value: int, ref: Ref, next: int)
    requires text != [] && IsDynamic(text, next) && p + |text| <= |s| && s[p..p + |text|] == text
    requires p + |text| < |s| ==> !IsDigit(s[p + |text|])
    ensures DynamicAt(s, p, value, ref, next) == DynamicMeaning(text, value, ref, next, p + |text|)
    ensures var d := DynamicMeaning(text, value, ref, next, 0);
      d.Dynamic? && DynamicMeaning(text, value, ref, next, p + |text|) == d.(end := p + |text|)
    ensures DynamicMeaning(text, value, ref, next, 0).next == CounterAfter(text, next)
  {
    hide IsDynamic, DynamicAt, CounterAfter;
    DynamicAccepted(s, p, value, ref, next, p + |text|);
    CounterIsMeant(text, value, ref, next, 0);
  }

  lemma WidthReads(s: seq<Unit>, p: nat, text: seq<Unit>, specs: Specs, next: int, t: ArgType)
    requires text != [] && Suits(5, text, t, next)
    requires p + |text| <= |s| && s[p..p + |text|] == text
    requires p + |text| < |s| ==> !IsDigit(s[p + |text|])
    ensures PartsAfter(4, s, p, specs, next, t)
            == PartsAfter(5, s, p + |text|, Apply(5, text, specs, t, next), Counted(5, text, next), t)
  {
    hide DynamicAt, DynamicMeaning, IsDynamic, CounterAfter, PartsAfter, StateOf;
    assert s[p] == text[0];
    PartHead(5, text, t, next);
    TokenAt(s, p, specs, next, t);
    DynamicReads(s, p, text, specs.width, specs.widthRef, next);
  }

  lemma PrecisionReads(s: seq<Unit>, p: nat, text: seq<Unit>, specs: Specs, next: int, t: ArgType)
    requires text != [] && Suits(6, text, t, next)
    requires p + |text| <= |s| && s[p..p + |text|] == text
    requires p + |text| < |s| ==> !IsDigit(s[p + |text|])
    ensures PartsAfter(5, s, p, specs, next, t)
            == PartsAfter(6, s, p + |text|, Apply(6, text, specs, t, next), Counted(6, text, next), t)
  {
    hide DynamicAt, DynamicMeaning, IsDynamic, CounterAfter, PartsAfter, StateOf, IsFloat;
    assert s[p] == text[0];
    PartHead(6, text, t, next);
    TokenAt(s, p, specs, next, t);
    assert s[p + 1..p + |text|] == text[1..];
    DynamicNotEmpty(text[1..], next);
    DynamicReads(s, p + 1, text[1..], specs.precision, specs.precisionRef, next);
  }

  lemma DynamicNotEmpty(text: seq<Unit>, next: int)
    requires IsDynamic(text, next)
    ensures text != []
  {
  }

  lemma OnePart(k: nat, s: seq<Unit>, p: nat, text: seq<Unit>, rest: seq<Unit>, specs: Specs, next: int, t: ArgType)
    requires 2 <= k <= 7 && text != [] && Suits(k, text, t, next) && p <= |s| && s[p..] == text + rest
    requires rest == [] || k < StateOf(rest[0])
    ensures p + |text| <= |s| && s[p + |text|..] == rest
    ensures PartsAfter(k - 1, s, p, specs, next, t)
            == PartsAfter(k, s, p + |text|, Apply(k, text, specs, t, next), Counted(k, text, next), t)
  {
    hide PartsAfter, StateOf, Suits, Apply, CounterAfter;
    assert s[p..][|text|..] == s[p + |text|..];
    assert s[p..][..|text|] == s[p..p + |text|];
    assert s[p] == s[p..][0];
    if k == 5 || k == 6 {
      if p + |text| < |s| {
        assert s[p + |text|] == rest[0];
        DigitStates(rest[0]);
      }
      if k == 5 {
        WidthReads(s, p, text, specs, next, t);
      } else {
        PrecisionReads(s, p, text, specs, next, t);
      }
    } else {
      FlagReads(k, s, p, text, specs, next, t);
    }
  }

  // ----- All parts -----

  lemma {:induction false} NothingWritten(k: nat, w: Parts, specs: Specs, t: ArgType, next: int)
    requires 1 <= k <= 9 && Written(w, t, next) && TextFrom(k, w) == []
    ensures Meaning(k, w, specs, t, next) == specs && NextAt(k, w, next) == NextAt(9, w, next)
    decreases 9 - k
  {
    hide Written, Apply, NextAt;
    if k < 9 {
      NextStep(k, w, next);
      NothingWritten(k + 1, w, specs, t, next);
    }
  }

  lemma LetterReads(s: seq<Unit>, p: nat, text: seq<Unit>, specs: Specs, next: int, t: ArgType, n: int)
    requires text != [] && Suits(8, text, t, n) && p < |s| && s[p] == text[0]
    ensures |text| == 1 && TypePart(s, p, specs, next, t) == Done(p + 1, Apply(8, text, specs, t, n), next)
  {
    hide LetterOf, ParseAlign;
    LetterForAll(s[p], t);
    ClosingBrace(s[p]);
  }

  lemma NoLetterReads(s: seq<Unit>, p: nat, specs: Specs, next: int, t: ArgType)
    requires p <= |s| && (p < |s| ==> s[p] == '}')
    ensures TypePart(s, p, specs, next, t) == Done(p, specs, next)
  {
  }

  lemma TypeReads(s: seq<Unit>, p: nat, w: Parts, specs: Specs, next: int, t: ArgType, tail: seq<Unit>)
    requires Written(w, t, next) && CanFollow(w, tail) && p <= |s| && s[p..] == TextFrom(8, w) + tail
    ensures PartsAfter(7, s, p, specs, NextAt(8, w, next), t)
            == Done(p + |TextFrom(8, w)|, Meaning(8, w, specs, t, next), NextAt(9, w, next))
  {
    hide LetterOf, DynamicAt, TypePart, Apply, Suits, Written, CounterAfter, NextAt;
    OnePartOn(8, w, specs, t, next);
    NextStep(8, w, next);
    if w[7] != [] {
      PartSuits(8, w, t, next);
      assert s[p] == s[p..][0] == w[7][0];
      LetterReads(s, p, w[7], specs, NextAt(8, w, next), t, NextAt(8, w, next));
    } else {
      assert p < |s| ==> s[p] == s[p..][0] == tail[0];
      NoLetterReads(s, p, specs, NextAt(8, w, next), t);
    }
  }

  /** What reading parts k to 8 from p should give. */
  ghost predicate ReadsFrom(k: nat, s: seq<Unit>, p: nat, w: Parts, specs: Specs, next: int, t: ArgType)
    requires 2 <= k <= 8 && Written(w, t, next) && p <= |s|
  {
    PartsAfter(k - 1, s, p, specs, NextAt(k, w, next), t)
    == Done(p + |TextFrom(k, w)|, Meaning(k, w, specs, t, next), NextAt(9, w, next))
  }

  lemma LeavesOut(k: nat, s: seq<Unit>, p: nat, w: Parts, specs: Specs, next: int, t: ArgType)
    requires 2 <= k <= 7 && Written(w, t, next) && p < |s| && w[k - 1] == [] && StateOf(s[p]) != k
    requires ReadsFrom(k + 1, s, p, w, specs, next, t)
    ensures ReadsFrom(k, s, p, w, specs, next, t)
  {
    hide PartsAfter, StateOf, Suits, Written, Meaning, TextFrom, Apply, NextAt, Counted;
    OnePartOn(k, w, specs, t, next);
    NextStep(k, w, next);
    SkipOne(k - 1, s, p, specs, NextAt(k, w, next), t);
  }

  lemma ReadsNothing(k: nat, s: seq<Unit>, w: Parts, specs: Specs, next: int, t: ArgType)
    requires 2 <= k <= 8 && Written(w, t, next) && TextFrom(k, w) == []
    ensures ReadsFrom(k, s, |s|, w, specs, next, t)
  {
    hide PartsAfter, Written, Meaning, TextFrom, NextAt;
    GrammarAtEnd(k - 1, s, specs, NextAt(k, w, next), t);
    NothingWritten(k, w, specs, t, next);
  }

  lemma SplitTail(k: nat, s: seq<Unit>, p: nat, w: Parts, tail: seq<Unit>)
    requires 2 <= k <= 8 && p <= |s| && s[p..] == TextFrom(k, w) + tail
    ensures p + |w[k - 1]| <= |s|
    ensures s[p + |w[k - 1]|..] == TextFrom(k + 1, w) + tail
    ensures s[p..] == w[k - 1] + (TextFrom(k + 1, w) + tail)
    ensures p == |s| ==> TextFrom(k, w) == []
  {
    hide TextFrom;
    SplitText(k, w);
    var text, rest := w[k - 1], TextFrom(k + 1, w) + tail;
    assert s[p..] == text + rest;
    assert s[p..][|text|..] == rest;
  }

  lemma {:induction false} PartsRead(k: nat, s: seq<Unit>, p: nat, w: Parts, specs: Specs, next: int, t: ArgType, tail: seq<Unit>)
    requires 2 <= k <= 8 && Written(w, t, next) && CanFollow(w, tail) && p <= |s| && s[p..] == TextFrom(k, w) + tail
    ensures ReadsFrom(k, s, p, w, specs, next, t)
    decreases 9 - k
  {
    hide StateOf, Suits, Written, CanFollow, Meaning, TextFrom, Apply, NextAt, Counted, ReadsFrom;
    SplitTail(k, s, p, w, tail);
    if k == 8 {
      TypeReadsFrom(s, p, w, specs, next, t, tail);
    } else if p == |s| {
      ReadsNothing(k, s, w, specs, next, t);
    } else {
      PartsRead(k + 1, s, p + |w[k - 1]|, w, After(k, w, specs, t, next), next, t, tail);
      if w[k - 1] == [] {
        NotHere(k, s, p, w, next, t, tail);
        LeavesOut(k, s, p, w, specs, next, t);
      } else {
        TakesPart(k, s, p, w, specs, next, t, tail);
      }
    }
  }

  lemma NotHere(k: nat, s: seq<Unit>, p: nat, w: Parts, next: int, t: ArgType, tail: seq<Unit>)
    requires 2 <= k <= 7 && Written(w, t, next) && CanFollow(w, tail) && p < |s| && s[p..] == TextFrom(k + 1, w) + tail
    ensures StateOf(s[p]) != k
  {
    hide StateOf, Written, CanFollow, TextFrom;
    HeadState(k + 1, w, t, next, tail);
    assert s[p] == s[p..][0];
  }

  lemma TakesPart(k: nat, s: seq<Unit>, p: nat, w: Parts, specs: Specs, next: int, t: ArgType, tail: seq<Unit>)
    requires 2 <= k <= 7 && Written(w, t, next) && CanFollow(w, tail) && w[k - 1] != [] && p + |w[k - 1]| <= |s|
    requires s[p..] == w[k - 1] + (TextFrom(k + 1, w) + tail)
    requires ReadsFrom(k + 1, s, p + |w[k - 1]|, w, After(k, w, specs, t, next), next, t)
    ensures ReadsFrom(k, s, p, w, specs, next, t)
  {
    hide StateOf, Suits, Written, CanFollow, Meaning, TextFrom, Apply, NextAt, Counted, ReadsFrom, PartsAfter;
    HeadState(k + 1, w, t, next, tail);
    PartSuits(k, w, t, next);
    OnePart(k, s, p, w[k - 1], TextFrom(k + 1, w) + tail, specs, NextAt(k, w, next), t);
    Takes(k, s, p, w, specs, next, t);
  }

  lemma TypeReadsFrom(s: seq<Unit>, p: nat, w: Parts, specs: Specs, next: int, t: ArgType, tail: seq<Unit>)
    requires Written(w, t, next) && CanFollow(w, tail) && p <= |s| && s[p..] == TextFrom(8, w) + tail
    ensures ReadsFrom(8, s, p, w, specs, next, t)
  {
    hide PartsAfter, Written, Meaning, TextFrom, NextAt, CanFollow;
    TypeReads(s, p, w, specs, next, t, tail);
  }

  lemma Takes(k: nat, s: seq<Unit>, p: nat, w: Parts, specs: Specs, next: int, t: ArgType)
    requires 2 <= k <= 7 && Written(w, t, next) && w[k - 1] != [] && p + |w[k - 1]| <= |s|
    requires Suits(k, w[k - 1], t, NextAt(k, w, next))
    requires var specs' := Apply(k, w[k - 1], specs, t, NextAt(k, w, next));
      && PartsAfter(k - 1, s, p, specs, NextAt(k, w, next), t)
         == PartsAfter(k, s, p + |w[k - 1]|, specs', Counted(k, w[k - 1], NextAt(k, w, next)), t)
      && ReadsFrom(k + 1, s, p + |w[k - 1]|, w, specs', next, t)
    ensures ReadsFrom(k, s, p, w, specs, next, t)
  {
    hide PartsAfter, Suits, Written, Meaning, TextFrom, Apply, NextAt, Counted;
    OnePartOn(k, w, specs, t, next);
    NextStep(k, w, next);
  }

  // ----- The first part -----

  lemma {:induction false} Pow4Add(m: nat, n: nat)
    ensures Pow4(m + n) == Pow4(m) * Pow4(n)
  {
    if m != 0 {
      Pow4Add(m - 1, n);
      MulAssoc(4, Pow4(m - 1), Pow4(n));
    }
  }

  lemma LowEntries(j: nat)
    requires j < 24
    ensures 0x3a55000000000000 / Pow4(j) % 4 == 0
  {
    hide Pow4;
    TableIs();
    Pow4Add(j, 24 - j);
    PowStep4(23 - j);
    NoRemainder(0x3a55000000000000, 0x3a55, Pow4(j), Pow4(24 - j), Pow4(23 - j));
  }

  lemma HighEntries(i: nat)
    requires i < 8
    ensures 0x3a55000000000000 / Pow4(24 + i) == 0x3a55 / Pow4(i)
  {
    hide Pow4;
    TableIs();
    Pow4Add(24, i);
    var p, b, q, r := Pow4(24), Pow4(i), 0x3a55 / Pow4(i), 0x3a55 % Pow4(i);
    assert 0x3a55 == b * q + r;
    MulMonotone(p, r, b - 1);
    assert p * (b - 1) == p * b - p;
    assert 0x3a55 * p == q * (p * b) + p * r;
    DivModUnique(0x3a55 * p, p * b, q, p * r);
  }

  lemma SmallPow4()
    ensures Pow4(0) == 1 && Pow4(1) == 4 && Pow4(2) == 16 && Pow4(3) == 64
    ensures Pow4(4) == 256 && Pow4(5) == 1024 && Pow4(6) == 4096 && Pow4(7) == 16384
  {
  }

  lemma HighLengths(i: nat)
    requires i < 8
    ensures 0x3a55 / Pow4(i) % 4 + 1 == if i < 4 then 2 else if i < 6 then 3 else if i == 6 then 4 else 1
  {
    hide Pow4;
    SmallPow4();
  }

  /** The table gives the length that the first byte of a UTF-8 sequence announces, and 1 for a byte
      that cannot be first. */
  lemma LengthTable(c: Unit)
    ensures var n := Utf8.LengthOf(c as int); CodePointLength(c) == if n == 0 then 1 else n
  {
    hide Pow4;
    var j := c as int / 8;
    if j < 24 {
      LowEntries(j);
    } else {
      HighEntries(j - 24);
      HighLengths(j - 24);
    }
  }

  lemma NoRemainder(n: int, a: int, p: int, q: int, r: int)
    requires 0 < p && n == a * (p * q) && q == 4 * r
    ensures n / p % 4 == 0
  {
    assert n == (a * q) * p + 0;
    DivModUnique(n, p, a * q, 0);
    assert a * q == (a * r) * 4 + 0;
    DivModUnique(a * q, 4, a * r, 0);
  }

  lemma PowStep4(n: nat)
    ensures Pow4(n + 1) == 4 * Pow4(n)
  {
  }

  lemma TableIs()
    ensures 0x3a55000000000000 == 0x3a55 * Pow4(24)
  {
    assert Pow4(6) == 4096;
    Pow4Add(6, 6);
    Pow4Add(12, 12);
  }

  lemma KnownIsAscii(c: Unit)
    requires Known(c)
    ensures CodePointLength(c) == 1
  {
    hide CodePointLength;
    LengthTable(c);
  }

  lemma DynamicHasNoAlign(text: seq<Unit>, next: int, i: nat)
    requires IsDynamic(text, next) && i < |text|
    ensures ParseAlign(text[i]) == NoAlign
  {
    hide Decimal;
    if IsBraced(text) && 0 < i < |text| - 1 {
      assert text[i] == Inside(text)[i - 1];
    }
  }

  /** No part behind the first holds an alignment character. */
  lemma PartHasNoAlign(k: nat, text: seq<Unit>, t: ArgType, next: int, i: nat)
    requires text != [] && 2 <= k <= 8 && Suits(k, text, t, next) && i < |text|
    ensures ParseAlign(text[i]) == NoAlign
  {
    hide IsDynamic, IsArithmetic;
    if k == 5 {
      DynamicHasNoAlign(text, next, i);
    } else if k == 6 && 0 < i {
      DynamicHasNoAlign(text[1..], next, i - 1);
      assert text[i] == text[1..][i - 1];
    }
  }

  lemma {:induction false} NoAlignFrom(k: nat, w: Parts, t: ArgType, next: int, i: nat)
    requires 2 <= k <= 9 && Written(w, t, next) && i < |TextFrom(k, w)|
    ensures ParseAlign(TextFrom(k, w)[i]) == NoAlign
    decreases 9 - k
  {
    hide Suits, ParseAlign, Written, NextAt;
    if i < |w[k - 1]| {
      PartSuits(k, w, t, next);
      PartHasNoAlign(k, w[k - 1], t, NextAt(k, w, next), i);
    } else {
      NoAlignFrom(k + 1, w, t, next, i - |w[k - 1]|);
    }
  }

  /** Without a first part none is seen, except where the spec is empty and nothing is read at all. */
  lemma NoFirstPart(s: seq<Unit>, p: nat, w: Parts, specs: Specs, next: int, t: ArgType, tail: seq<Unit>)
    requires Written(w, t, next) && CanFollow(w, tail) && w[0] == [] && p < |s| && s[p..] == TextFrom(2, w) + tail
    requires |TextFrom(2, w)| == 1 && tail != [] ==> ParseAlign(tail[0]) == NoAlign
    ensures PartsAfter(0, s, p, specs, next, t) == PartsAfter(1, s, p, specs, next, t)
            || (TextFrom(2, w) == [] && PartsAfter(0, s, p, specs, next, t) == Done(p, specs, next))
  {
    hide PartsAfter, StateOf, TokenResult, CodePointLength, ParseAlign, Known, Written, TextFrom, CanFollow;
    var text := TextFrom(2, w);
    StartToken(s, p, specs, next, t);
    HeadState(2, w, t, next, tail);
    assert s[p] == s[p..][0];
    KnownHasState(s[p]);
    if text == [] {
      NoLetterNoText(w, tail);
    } else if p + 1 < |s| {
      assert s[p + 1] == s[p..][1] == (text + tail)[1];
      if 1 < |text| {
        NoAlignFrom(2, w, t, next, 1);
      }
    }
  }

  lemma NoLetterNoText(w: Parts, tail: seq<Unit>)
    requires TextFrom(2, w) == [] && CanFollow(w, tail)
    ensures tail != [] ==> tail[0] == '}'
  {
    SplitText(2, w);
    SplitText(3, w);
    SplitText(4, w);
    SplitText(5, w);
    SplitText(6, w);
    SplitText(7, w);
    SplitText(8, w);
  }

  lemma FirstPart(s: seq<Unit>, p: nat, text: seq<Unit>, rest: seq<Unit>, specs: Specs, next: int, t: ArgType)
    requires text != [] && Suits(1, text, t, next) && p <= |s| && s[p..] == text + rest
    requires rest == [] || 1 < StateOf(rest[0])
    ensures p + |text| <= |s| && s[p + |text|..] == rest
    ensures PartsAfter(0, s, p, specs, next, t) == PartsAfter(1, s, p + |text|, Apply(1, text, specs, t, next), next, t)
  {
    hide PartsAfter, StateOf, CodePointLength, ParseAlign, Known;
    assert s[p..][|text|..] == s[p + |text|..];
    assert s[p..][..|text|] == s[p..p + |text|];
    assert s[p] == s[p..][0] == text[0];
    StartToken(s, p, specs, next, t);
    KnownHasState(text[0]);
    if |text| == 1 {
      if p + 1 < |s| {
        assert s[p + 1] == s[p..][1] == rest[0];
        KnownHasState(rest[0]);
      }
    } else {
      var last := p + |text| - 1;
      assert s[last] == s[p..][|text| - 1] == text[|text| - 1];
      assert s[p..last] == text[..|text| - 1];
      if Known(s[p]) {
        KnownIsAscii(s[p]);
      }
    }
  }

  // ----- The round trip -----

  lemma NextAtStart(w: Parts, next: int)
    ensures NextAt(1, w, next) == next && NextAt(2, w, next) == next
  {
  }

  lemma ReadsWithFirst(s: seq<Unit>, p: nat, w: Parts, specs: Specs, next: int, t: ArgType, tail: seq<Unit>)
    requires Written(w, t, next) && CanFollow(w, tail) && p <= |s| && s[p..] == w[0] + (TextFrom(2, w) + tail)
    requires w[0] != []
    ensures PartsAfter(0, s, p, specs, next, t)
            == Done(p + |w[0]| + |TextFrom(2, w)|, Meaning(2, w, After(1, w, specs, t, next), t, next), NextAt(9, w, next))
  {
    hide PartsAfter, StateOf, Suits, Written, CanFollow, Meaning, TextFrom, Apply, NextAt;
    NextAtStart(w, next);
    HeadState(2, w, t, next, tail);
    PartSuits(1, w, t, next);
    FirstPart(s, p, w[0], TextFrom(2, w) + tail, specs, next, t);
    PartsRead(2, s, p + |w[0]|, w, Apply(1, w[0], specs, t, next), next, t, tail);
  }

  lemma ReadsWithoutFirst(s: seq<Unit>, p: nat, w: Parts, specs: Specs, next: int, t: ArgType, tail: seq<Unit>)
    requires Written(w, t, next) && CanFollow(w, tail) && p < |s| && s[p..] == TextFrom(2, w) + tail
    requires w[0] == [] && (|TextFrom(2, w)| == 1 && tail != [] ==> ParseAlign(tail[0]) == NoAlign)
    ensures PartsAfter(0, s, p, specs, next, t)
            == Done(p + |TextFrom(2, w)|, Meaning(2, w, specs, t, next), NextAt(9, w, next))
  {
    hide PartsAfter, ParseAlign, Suits, Written, CanFollow, Meaning, TextFrom, Apply, NextAt;
    NextAtStart(w, next);
    NoFirstPart(s, p, w, specs, next, t, tail);
    PartsRead(2, s, p, w, specs, next, t, tail);
    if TextFrom(2, w) == [] {
      NothingWritten(2, w, specs, t, next);
    }
  }

  lemma ReadsTail(s: seq<Unit>, p: nat, w: Parts, specs: Specs, next: int, t: ArgType, tail: seq<Unit>)
    requires Written(w, t, next) && CanFollow(w, tail) && p <= |s| && s[p..] == TextFrom(1, w) + tail
    requires w[0] == [] && |TextFrom(1, w)| == 1 && tail != [] ==> ParseAlign(tail[0]) == NoAlign
    ensures PartsAfter(0, s, p, specs, next, t)
            == Done(p + |TextFrom(1, w)|, Meaning(1, w, specs, t, next), NextAt(9, w, next))
  {
    hide PartsAfter, ParseAlign, Suits, Written, CanFollow, Meaning, TextFrom, Apply, NextAt;
    OnePartOn(1, w, specs, t, next);
    if p == |s| {
      NextAtStart(w, next);
      GrammarAtEnd(0, s, specs, next, t);
      NothingWritten(1, w, specs, t, next);
    } else if w[0] == [] {
      ReadsWithoutFirst(s, p, w, specs, next, t, tail);
    } else {
      assert s[p..] == w[0] + (TextFrom(2, w) + tail);
      ReadsWithFirst(s, p, w, specs, next, t, tail);
    }
  }

  /** The text from begin to end is a list of parts that suits the argument and can end there. */
  ghost predicate IsSpec(w: Parts, s: seq<Unit>, begin: nat, end: nat, t: ArgType, next: int)
  {
    && begin <= end <= |s|
    && s[begin..end] == TextFrom(1, w)
    && Written(w, t, next)
    && EndsAt(w, s, end) && NoFill(w, s, end)
  }

  /** Any parts that suit are read back up to their end and mean what they say. */
  lemma WrittenParses(w: Parts, s: seq<Unit>, begin: nat, end: nat, specs: Specs, next: int, t: ArgType)
    requires IsSpec(w, s, begin, end, t, next)
    ensures PartsAfter(0, s, begin, specs, next, t) == Done(end, Meaning(1, w, specs, t, next), NextAt(9, w, next))
  {
    hide PartsAfter, Written, TextFrom, Meaning, NextAt;
    assert s[begin..] == s[begin..end] + s[end..];
    assert end < |s| ==> s[end..][0] == s[end];
    ReadsTail(s, begin, w, specs, next, t, s[end..]);
  }

  /** The parser accepts, with this end, exactly the lists of parts that suit the argument type and the
      argument counter and can end there; and then the specs and the counter are what the parts say. */
  lemma AcceptedIffSpec(s: seq<Unit>, begin: nat, end: nat, specs: Specs, next: int, t: ArgType)
    requires begin <= |s|
    ensures var r := PartsAfter(0, s, begin, specs, next, t);
      r.Done? && r.end == end <==> exists w :: IsSpec(w, s, begin, end, t, next)
    ensures forall w :: IsSpec(w, s, begin, end, t, next) ==>
      PartsAfter(0, s, begin, specs, next, t) == Done(end, Meaning(1, w, specs, t, next), NextAt(9, w, next))
  {
    hide PartsAfter, Meaning, NextAt;
    forall w | IsSpec(w, s, begin, end, t, next)
      ensures PartsAfter(0, s, begin, specs, next, t) == Done(end, Meaning(1, w, specs, t, next), NextAt(9, w, next))
    {
      WrittenParses(w, s, begin, end, specs, next, t);
    }
    var r := PartsAfter(0, s, begin, specs, next, t);
    if r.Done? && r.end == end {
      var w := AcceptedInOrder(s, begin, specs, next, t);
      assert IsSpec(w, s, begin, end, t, next);
    }
  }

  // ----- The fields -----

  lemma AlignSays(w: Parts, specs: Specs, t: ArgType, next: int)
    requires Written(w, t, next)
    ensures After(1, w, specs, t, next) == specs.(
        align := if w[0] != [] then ParseAlign(w[0][|w[0]| - 1]) else specs.align,
        fill := if |w[0]| > 1 then w[0][..|w[0]| - 1] else specs.fill)
    ensures w[0] != [] ==> ParseAlign(w[0][|w[0]| - 1]) != NoAlign
  {
    hide CodePointLength, IsArithmetic, ParseAlign, TextFrom, Written, NextAt;
    if w[0] != [] {
      PartSuits(1, w, t, next);
    }
  }

  lemma SignSays(w: Parts, specs: Specs, t: ArgType, next: int)
    requires Written(w, t, next)
    ensures After(2, w, specs, t, next) == specs.(
        sign := if w[1] == [' '] then Space else if w[1] == ['+'] then Plus else specs.sign)
  {
    hide IsSint, IsFloat, IsArithmetic, TextFrom, Written, NextAt;
    if w[1] != [] {
      PartSuits(2, w, t, next);
      assert w[1] == [w[1][0]];
    }
  }

  lemma HashAndZeroSay(w: Parts, specs: Specs, t: ArgType, next: int)
    requires Written(w, t, next)
    ensures After(4, w, After(3, w, specs, t, next), t, next) == specs.(
        alt := specs.alt || w[2] != [],
        align := if specs.align == NoAlign && w[3] != [] then Numeric else specs.align,
        fill := if specs.align == NoAlign && w[3] != [] then ['0'] else specs.fill)
  {
    hide Suits, LetterOf, TextFrom, Written, NextAt;
  }

  /** What a width or precision text says, and the values it leaves alone. */
  function Said(text: seq<Unit>, value: int, next: int): (d: Dynamic)
    requires text == [] || IsDynamic(text, next)
    ensures d.Dynamic?
  {
    if text == [] then Dynamic(0, value, NoRef, NoKind, next) else DynamicMeaning(text, value, NoRef, next, 0)
  }

  function PrecisionText(w: Parts): seq<Unit> { if w[5] == [] then [] else w[5][1..] }

  lemma NumbersSuit(w: Parts, t: ArgType, next: int)
    requires Written(w, t, next)
    ensures w[4] == [] || IsDynamic(w[4], next)
    ensures PrecisionText(w) == [] || IsDynamic(PrecisionText(w), NextAt(6, w, next))
    ensures w[5] != [] ==> PrecisionText(w) != []
  {
    hide IsDynamic, NextAt, IsFloat, Written;
    NextAtFive(w, next);
    if w[4] != [] {
      PartSuits(5, w, t, next);
    }
    if w[5] != [] {
      PartSuits(6, w, t, next);
      DynamicNotEmpty(w[5][1..], NextAt(6, w, next));
    }
  }

  lemma NextAtFive(w: Parts, next: int)
    ensures NextAt(5, w, next) == next
  {
  }

  lemma WidthSays(w: Parts, specs: Specs, t: ArgType, next: int)
    requires Written(w, t, next) && specs.widthRef == NoRef && specs.widthKind == NoKind
    ensures w[4] == [] || IsDynamic(w[4], next)
    ensures var d := Said(w[4], specs.width, next);
      After(5, w, specs, t, next) == specs.(width := d.value, widthRef := d.ref, widthKind := d.kind)
  {
    hide IsDynamic, DynamicMeaning, Written, NextAt, LetterOf, CodePointLength;
    NumbersSuit(w, t, next);
    NextAtFive(w, next);
  }

  lemma PrecisionSays(w: Parts, specs: Specs, t: ArgType, next: int)
    requires Written(w, t, next) && specs.precisionRef == NoRef && specs.precisionKind == NoKind
    ensures PrecisionText(w) == [] || IsDynamic(PrecisionText(w), NextAt(6, w, next))
    ensures var d := Said(PrecisionText(w), specs.precision, NextAt(6, w, next));
      After(6, w, specs, t, next) == specs.(precision := d.value, precisionRef := d.ref, precisionKind := d.kind)
  {
    hide IsDynamic, DynamicMeaning, Written, NextAt, LetterOf, CodePointLength, IsFloat;
    NumbersSuit(w, t, next);
  }

  lemma LocaleAndTypeSay(w: Parts, specs: Specs, t: ArgType, next: int)
    requires Written(w, t, next)
    ensures w[7] != [] ==> LetterOf(w[7][0], t).Letter?
    ensures After(8, w, After(7, w, specs, t, next), t, next) == specs.(
        localized := specs.localized || w[6] != [],
        presentation := if w[7] == [] then specs.presentation else LetterOf(w[7][0], t).presentation,
        upper := specs.upper || (w[7] != [] && LetterOf(w[7][0], t).upper))
  {
    hide IsArithmetic, LetterOf, TextFrom, Written, NextAt, IsDynamic, DynamicMeaning, CodePointLength, ZeroFlag, ParseAlign;
    if w[7] != [] {
      PartSuits(8, w, t, next);
    }
  }

  lemma AllParts(w: Parts, specs: Specs, t: ArgType, next: int)
    requires Written(w, t, next)
    ensures Meaning(9, w, specs, t, next) == specs
  {
  }

  lemma FieldsFollow(w: Parts, t: ArgType, next: int)
    requires Written(w, t, next)
    ensures var (align, sign, zero, letter) := (w[0], w[1], w[3], w[7]);
      && (letter != [] ==> LetterOf(letter[0], t).Letter?)
      && (w[4] == [] || IsDynamic(w[4], next))
      && (PrecisionText(w) == [] || IsDynamic(PrecisionText(w), NextAt(6, w, next)))
      && var (width, precision) := (Said(w[4], 0, next), Said(PrecisionText(w), -1, NextAt(6, w, next)));
      Meaning(1, w, DEFAULT, t, next) == Specs(
        if letter == [] then 0 else LetterOf(letter[0], t).presentation,
        if align != [] then ParseAlign(align[|align| - 1]) else if zero != [] then Numeric else NoAlign,
        if |align| > 1 then align[..|align| - 1] else if align == [] && zero != [] then ['0'] else [' '],
        if sign == [' '] then Space else if sign == ['+'] then Plus else NoSign,
        letter != [] && LetterOf(letter[0], t).upper,
        w[2] != [], w[6] != [],
        width.value, width.ref, width.kind,
        precision.value, precision.ref, precision.kind)
  {
    hide After, Apply, Said, PrecisionText, LetterOf, ParseAlign, TextFrom, Meaning, Suits, Written, IsDynamic, NextAt;
    var s1 := After(1, w, DEFAULT, t, next);
    var s2 := After(2, w, s1, t, next);
    var s3 := After(3, w, s2, t, next);
    var s4 := After(4, w, s3, t, next);
    var s5 := After(5, w, s4, t, next);
    var s6 := After(6, w, s5, t, next);
    var s7 := After(7, w, s6, t, next);
    OnePartOn(1, w, DEFAULT, t, next);
    OnePartOn(2, w, s1, t, next);
    OnePartOn(3, w, s2, t, next);
    OnePartOn(4, w, s3, t, next);
    OnePartOn(5, w, s4, t, next);
    OnePartOn(6, w, s5, t, next);
    OnePartOn(7, w, s6, t, next);
    OnePartOn(8, w, s7, t, next);
    AlignSays(w, DEFAULT, t, next);
    SignSays(w, s1, t, next);
    HashAndZeroSay(w, s2, t, next);
    WidthSays(w, s4, t, next);
    PrecisionSays(w, s5, t, next);
    LocaleAndTypeSay(w, s6, t, next);
    AllParts(w, After(8, w, s7, t, next), t, next);
  }

  /** The fields of the parsed specs, each from its own part, in characters; only the zero flag looks at
      another part. */
  lemma MeaningFields(w: Parts, t: ArgType, next: int)
    requires Written(w, t, next)
    ensures var (m, align, zero, letter) := (Meaning(1, w, DEFAULT, t, next), w[0], w[3], w[7]);
      && (align != [] ==> align[|align| - 1] in "<>^"
                          && m.align == match align[|align| - 1] case '<' => Left case '>' => Right case _ => Center)
      && (align == [] ==> m.align == if zero == [] then NoAlign else Numeric)
      && m.fill == (if |align| > 1 then align[..|align| - 1] else if align == [] && zero != [] then ['0'] else [' '])
      && m.sign == (if w[1] == [' '] then Space else if w[1] == ['+'] then Plus else NoSign)
      && m.alt == (w[2] != []) && m.localized == (w[6] != [])
      && (letter == [] ==> m.presentation == 0 && !m.upper)
      && (letter != [] ==>
            && m.presentation == (if letter[0] in "?eE" then 1 else if letter[0] in "sfF" then 2
                                  else if letter[0] in "dpgG" then 3 else if letter[0] in "xXaA" then 4
                                  else if letter[0] == 'o' then 5 else if letter[0] in "bB" then 6 else 7)
            && m.upper == (letter[0] in "XBEFGA"))
  {
    hide Meaning, Said, LetterOf, ParseAlign, Written, NextAt, Suits, IsDynamic;
    FieldsFollow(w, t, next);
    if w[0] != [] {
      AlignSays(w, DEFAULT, t, next);
      AlignTable(w[0][|w[0]| - 1]);
    }
    if w[7] != [] {
      LetterTable(w[7][0], t);
    }
  }

  /** The width and the precision: plain numbers, or arguments taken in order, or given ones. */
  lemma MeaningOfNumbers(w: Parts, t: ArgType, next: int)
    requires Written(w, t, next)
    ensures var m := Meaning(1, w, DEFAULT, t, next);
      && (w[4] == [] ==> m.width == 0 && m.widthRef == NoRef && m.widthKind == NoKind)
      && (w[5] == [] ==> m.precision == -1 && m.precisionRef == NoRef && m.precisionKind == NoKind)
      && (forall n: nat :: w[4] == DecimalText(n) ==> m.width == n <= 2147483647 && m.widthKind == NoKind)
      && (forall n: nat :: w[5] == ['.'] + DecimalText(n) ==> m.precision == n <= 2147483647 && m.precisionKind == NoKind)
      && (w[4] == "{}" ==> m.widthRef == RefIndex(next) && m.widthKind == ByIndex)
      && (w[5] == ".{}" ==> m.precisionKind == ByIndex
                            && m.precisionRef == RefIndex(if w[4] == "{}" then next + 1 else next))
  {
    hide Meaning, LetterOf, ParseAlign, Written, Suits, Said, IsDynamic;
    FieldsFollow(w, t, next);
    SaidText(w[4], 0, next);
    SaidText(PrecisionText(w), -1, NextAt(6, w, next));
    if w[5] == ".{}" {
      assert PrecisionText(w) == "{}";
      CountsOn(w[4], next, NextAt(6, w, next));
    }
    assert forall n: nat :: w[5] == ['.'] + DecimalText(n) ==> w[5][1..] == DecimalText(n);
  }

  /** Taking an argument in order leaves only a counter that counts. */
  lemma CountsOn(width: seq<Unit>, next: int, next': int)
    requires width == [] || IsDynamic(width, next)
    requires next' == if width == [] then next else CounterAfter(width, next)
    requires IsDynamic("{}", next')
    ensures next' == if width == "{}" then next + 1 else next
  {
    hide IsNumber;
    NumberStarts(width);
    NumberStarts("{}");
  }

  lemma SaidText(text: seq<Unit>, value: int, next: int)
    requires text == [] || IsDynamic(text, next)
    ensures text == [] ==> Said(text, value, next) == Dynamic(0, value, NoRef, NoKind, next)
    ensures text == "{}" ==> Said(text, value, next) == Dynamic(0, value, RefIndex(next), ByIndex, next + 1)
    ensures forall n: nat :: text == DecimalText(n)
              ==> n <= 2147483647 && Said(text, value, next) == Dynamic(0, n, NoRef, NoKind, next)
  {
    hide Decimal, DecimalText;
    NumberStarts(text);
    forall n: nat | text == DecimalText(n)
      ensures n <= 2147483647 && Said(text, value, next) == Dynamic(0, n, NoRef, NoKind, next)
    {
      DecimalRoundTrip(n);
    }
  }

  /** Arguments taken in order and ids given by number do not mix: after a width that names its argument the
      precision takes none in order, and after one that takes it in order the precision gives no number. */
  lemma NoMixing(w: Parts, t: ArgType, next: int)
    requires Written(w, t, next)
    ensures |w[4]| > 2 && w[4][0] == '{' ==> w[5] != ".{}"
    ensures w[4] == "{}" && |w[5]| > 3 && w[5][1] == '{' ==> w[5][2] !in "0123456789"
  {
    hide IsDynamic, IsFloat, Written;
    NumbersSuit(w, t, next);
    if w[5] != [] {
      var p, n := w[5][1..], NextAt(6, w, next);
      InBraces(p, n);
      if w[4] == "{}" {
        InBraces(w[4], next);
      }
      if |p| > 2 {
        DigitsAre(p[1]);
        assert p[1] == w[5][2];
      }
    }
  }

  lemma InBraces(text: seq<Unit>, next: int)
    requires IsDynamic(text, next)
    ensures text == "{}" ==> 0 <= next
    ensures |text| > 2 && text[0] == '{' && IsDigit(text[1]) ==> next <= 0
  {
    hide Decimal;
    NumberStarts(text);
    if text == "{}" {
      assert Inside(text) == [];
    }
    if |text| > 2 && text[0] == '{' && IsDigit(text[1]) {
      assert Inside(text)[0] == text[1];
      DigitStartsNoName(text[1]);
    }
  }

  lemma DigitStartsNoName(c: char)
    requires IsDigit(c)
    ensures !IsNameStart(c)
  {
  }

  // ----- The parts in characters -----

  /** What each part may be, character by character and type by type. */
  lemma PartTexts(text: seq<Unit>, t: ArgType, next: int)
    requires text != []
    ensures Suits(1, text, t, next)
            <==> text[|text| - 1] in "<>^"
                 && (|text| == 1
                     || (text[0] !in "{}" && var n := Utf8.LengthOf(text[0] as int); |text| == 1 + if n == 0 then 1 else n))
    ensures Suits(2, text, t, next)
            <==> (text == "+" || text == "-" || text == " ")
                 && t in {IntType, LongLongType, Int128Type, FloatType, DoubleType, LongDoubleType}
    ensures Suits(3, text, t, next) <==> text == "#" && t !in {NoneType, CstringType, StringType, PointerType, CustomType}
    ensures Suits(4, text, t, next) <==> text == "0" && t !in {NoneType, CstringType, StringType, PointerType, CustomType}
    ensures Suits(5, text, t, next) <==> text[0] in "123456789{" && IsDynamic(text, next)
    ensures Suits(6, text, t, next)
            <==> text[0] == '.' && IsDynamic(text[1..], next)
                 && t in {FloatType, DoubleType, LongDoubleType, CstringType, StringType}
    ensures Suits(7, text, t, next) <==> text == "L" && t !in {NoneType, CstringType, StringType, PointerType, CustomType}
    ensures Suits(8, text, t, next) <==> |text| == 1 && AdmitsLetter(text[0], t)
  {
    hide LetterOf, AdmitsLetter, ParseAlign, CodePointLength, IsDynamic, IsSint, IsFloat, IsArithmetic;
    AlignTable(text[|text| - 1]);
    LengthTable(text[0]);
    TypeSets(t);
    LetterAdmitted(text[0], t);
    assert |text| == 1 ==> text == [text[0]];
  }

  /** What a width or precision may be, character by character. */
  lemma DynamicTexts(text: seq<Unit>, next: int)
    ensures IsDynamic(text, next)
            <==> || (0 < |text| <= 10 && (forall c :: c in text ==> c in "0123456789") && AllDigits(text) && Decimal(text) <= 2147483647)
                 || (text == "{}" && 0 <= next)
                 || (IsBraced(text) && IsIdNumber(Inside(text)) && next <= 0)
                 || (IsBraced(text) && IsName(Inside(text)))
  {
    hide Decimal, IsIdNumber, IsName, IsDigit;
    assert IsBraced(text) && |text| == 2 <==> text == "{}";
    forall c: Unit | c in text ensures IsDigit(c) <==> c in "0123456789" {
      DigitsAre(c);
    }
  }
}
