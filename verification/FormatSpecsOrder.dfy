/** What an accepted format spec looks like: parts in the order of the grammar, each at most once. */
module FormatSpecsOrder {
  import opened FormatScan
  import opened FormatSpecs

  // ----- The parts, as texts -----

  predicate IsAlignText(text: seq<Unit>)
    requires text != []
  {
    ParseAlign(text[|text| - 1]) != NoAlign
    && (|text| == 1 || (text[0] != '{' && text[0] != '}' && |text| == CodePointLength(text[0]) + 1))
  }

  /** The text is part k of the grammar and suits the argument type and the argument counter:
      1 fill and alignment, 2 sign, 3 '#', 4 '0', 5 width, 6 precision, 7 'L', 8 type. */
  predicate Suits(k: nat, text: seq<Unit>, t: ArgType, next: int)
    requires text != []
  {
    if k == 1 then IsAlignText(text)
    else if k == 2 then |text| == 1 && IsSignChar(text[0]) && (IsSint(t) || IsFloat(t))
    else if k == 3 then |text| == 1 && text[0] == '#' && IsArithmetic(t)
    else if k == 4 then |text| == 1 && text[0] == '0' && IsArithmetic(t)
    else if k == 5 then StartsWidth(text[0]) && IsDynamic(text, next)
    else if k == 6 then
      text[0] == '.' && IsDynamic(text[1..], next) && (IsFloat(t) || t.StringType? || t.CstringType?)
    else if k == 7 then |text| == 1 && text[0] == 'L' && IsArithmetic(t)
    else |text| == 1 && LetterOf(text[0], t).Letter? && LetterOf(text[0], t).allowed
  }

  /** The counter behind a width or precision: empty braces take an argument, an id ends the counting. */
  function CounterAfter(text: seq<Unit>, next: int): int
  {
    if text == [] || text[0] != '{' then next else if |text| == 2 then next + 1 else -1
  }

  lemma CounterIsMeant(text: seq<Unit>, value: int, ref: Ref, next: int, end: nat)
    requires IsDynamic(text, next)
    ensures DynamicMeaning(text, value, ref, next, end).next == CounterAfter(text, next)
  {
    NumberStarts(text);
  }

  /** The counter behind part k. */
  function Counted(k: nat, text: seq<Unit>, next: int): int
    requires text != []
  {
    if k == 5 then CounterAfter(text, next) else if k == 6 then CounterAfter(text[1..], next) else next
  }

  /** The texts of the eight parts, an empty one for a part that is left out. */
  type Parts = w: seq<seq<Unit>> | |w| == 8 witness [[], [], [], [], [], [], [], []]

  /** The counter before part k, when it is next before the first. */
  function NextAt(k: nat, w: Parts, next: int): int
  {
    var second := if w[4] == [] then next else Counted(5, w[4], next);
    if k <= 5 then next else if k == 6 || w[5] == [] then second else Counted(6, w[5], second)
  }

  /** Every part that is there suits. */
  predicate Written(w: Parts, t: ArgType, next: int)
  {
    forall i :: 0 <= i < 8 && w[i] != [] ==> Suits(i + 1, w[i], t, NextAt(i + 1, w, next))
  }

  /** Parts k to 8, one after the other. */
  function TextFrom(k: nat, w: Parts): seq<Unit>
    requires 1 <= k <= 9
    decreases 9 - k
  {
    if k == 9 then [] else w[k - 1] + TextFrom(k + 1, w)
  }

  lemma {:induction false} SameText(k: nat, w: Parts, w': Parts)
    requires 1 <= k <= 9 && forall i :: k - 1 <= i < 8 ==> w[i] == w'[i]
    ensures TextFrom(k, w) == TextFrom(k, w')
    decreases 9 - k
  {
    if k < 9 {
      SameText(k + 1, w, w');
    }
  }

  lemma {:induction false} NoText(k: nat, w: Parts)
    requires 1 <= k <= 9 && forall i :: k - 1 <= i < 8 ==> w[i] == []
    ensures TextFrom(k, w) == []
    decreases 9 - k
  {
    if k < 9 {
      NoText(k + 1, w);
    }
  }

  /** A spec without a type ends at a closing brace or at the end of the string. */
  predicate EndsAt(w: Parts, s: seq<Unit>, end: nat)
    requires end <= |s|
  {
    w[7] == [] ==> end == |s| || s[end] == '}'
  }

  // ----- From the last part to the first -----

  /** If the result is good, the parts from k on make up the text read. */
  ghost predicate MadeOf(k: nat, w: Parts, s: seq<Unit>, p: nat, t: ArgType, next: int, r: Result)
    requires 1 <= k <= 9
  {
    r.Done? ==>
      && p <= r.end <= |s|
      && (forall i :: 0 <= i < k - 1 ==> w[i] == [])
      && Written(w, t, next)
      && s[p..r.end] == TextFrom(k, w)
      && EndsAt(w, s, r.end)
  }

  const NOTHING: Parts := [[], [], [], [], [], [], [], []]

  lemma NothingRead(k: nat, s: seq<Unit>, p: nat, t: ArgType, next: int, r: Result)
    requires 1 <= k <= 9 && p <= |s|
    requires r.Done? ==> r.end == p && (p == |s| || s[p] == '}')
    ensures MadeOf(k, NOTHING, s, p, t, next, r)
  {
    NoText(k, NOTHING);
    assert s[p..p] == [];
  }

  /** Part k in front of later ones: taken as s[p..q] or, with q == p, left out. */
  lemma Before(k: nat, w: Parts, s: seq<Unit>, p: nat, q: nat, t: ArgType, next: int, next': int, r: Result)
    returns (w': Parts)
    requires 1 <= k <= 8 && p <= q <= |s| && MadeOf(k + 1, w, s, q, t, next', r)
    requires p < q ==> Suits(k, s[p..q], t, next) && next' == Counted(k, s[p..q], next)
    requires p == q ==> next' == next
    ensures MadeOf(k, w', s, p, t, next, r)
    ensures r.Done? ==> w'[k - 1] == s[p..q]
  {
    hide Suits, Counted, TextFrom;
    w' := w;
    if r.Done? {
      w' := w[k - 1 := s[p..q]];
      OneMoreText(k, w', w);
      assert s[p..r.end] == s[p..q] + s[q..r.end];
      forall i | 0 <= i < 8 && w'[i] != [] ensures Suits(i + 1, w'[i], t, NextAt(i + 1, w', next)) {
        SameCounter(k, i + 1, w, w', s[p..q], next, next');
      }
    }
  }

  lemma OneMoreText(k: nat, w': Parts, w: Parts)
    requires 1 <= k <= 8 && w == w'[k - 1 := w[k - 1]]
    ensures TextFrom(k, w') == w'[k - 1] + TextFrom(k + 1, w)
  {
    SameText(k + 1, w', w);
  }

  /** The later parts meet the same counters as without part k in front. */
  lemma SameCounter(k: nat, j: nat, w: Parts, w': Parts, text: seq<Unit>, next: int, next': int)
    requires 1 <= k <= j <= 8 && (forall i :: 0 <= i < k ==> w[i] == []) && w' == w[k - 1 := text]
    requires next' == if text == [] then next else Counted(k, text, next)
    ensures j == k ==> NextAt(k, w', next) == next
    ensures k < j ==> NextAt(j, w', next) == NextAt(j, w, next')
  {
    hide CounterAfter;
  }

  lemma TypeMade(s: seq<Unit>, p: nat, specs: Specs, next: int, t: ArgType) returns (w: Parts)
    requires p <= |s|
    ensures MadeOf(8, w, s, p, t, next, TypePart(s, p, specs, next, t))
  {
    hide LetterOf, MadeOf;
    var r := TypePart(s, p, specs, next, t);
    if p < |s| && s[p] != '}' && r.Done? {
      w := NOTHING[7 := s[p..p + 1]];
      assert s[p..p + 1][0] == s[p];
      LetterMade(w, s, p, t, next, r);
    } else {
      w := NOTHING;
      NothingRead(8, s, p, t, next, r);
    }
  }

  lemma LetterMade(w: Parts, s: seq<Unit>, p: nat, t: ArgType, next: int, r: Result)
    requires p < |s| && w == NOTHING[7 := s[p..p + 1]] && Suits(8, s[p..p + 1], t, next)
    requires r.Done? && r.end == p + 1
    ensures MadeOf(8, w, s, p, t, next, r)
  {
    hide Suits;
    assert TextFrom(9, w) == [];
  }

  lemma LocaleMade(s: seq<Unit>, p: nat, specs: Specs, next: int, t: ArgType) returns (w: Parts)
    requires p <= |s|
    ensures MadeOf(7, w, s, p, t, next, LocalePart(s, p, specs, next, t))
  {
    hide TypePart, MadeOf;
    w := NOTHING;
    if p < |s| && s[p] == 'L' {
      if IsArithmetic(t) {
        w := TypeMade(s, p + 1, specs.(localized := true), next, t);
        w := Before(7, w, s, p, p + 1, t, next, next, LocalePart(s, p, specs, next, t));
      } else {
        NothingRead(7, s, p, t, next, Failed);
      }
    } else {
      w := TypeMade(s, p, specs, next, t);
      w := Before(7, w, s, p, p, t, next, next, LocalePart(s, p, specs, next, t));
    }
  }

  lemma PrecisionMade(s: seq<Unit>, p: nat, specs: Specs, next: int, t: ArgType) returns (w: Parts)
    requires p <= |s|
    ensures MadeOf(6, w, s, p, t, next, PrecisionPart(s, p, specs, next, t))
  {
    hide LocalePart, MadeOf, DynamicAt, IsDynamic, DynamicMeaning, CounterAfter;
    w := NOTHING;
    var r := PrecisionPart(s, p, specs, next, t);
    if p < |s| && s[p] == '.' {
      if r.Failed? {
        NothingRead(6, s, p, t, next, r);
      } else {
        var d := DynamicAt(s, p + 1, specs.precision, specs.precisionRef, next);
        DynamicAccepted(s, p + 1, specs.precision, specs.precisionRef, next, d.end);
        assert s[p..d.end][1..] == s[p + 1..d.end];
        CounterIsMeant(s[p + 1..d.end], specs.precision, specs.precisionRef, next, d.end);
        w := LocaleMade(s, d.end, specs.(precision := d.value, precisionRef := d.ref, precisionKind := d.kind), d.next, t);
        w := Before(6, w, s, p, d.end, t, next, d.next, r);
      }
    } else {
      w := LocaleMade(s, p, specs, next, t);
      w := Before(6, w, s, p, p, t, next, next, r);
    }
  }

  lemma WidthMade(s: seq<Unit>, p: nat, specs: Specs, next: int, t: ArgType) returns (w: Parts)
    requires p <= |s|
    ensures MadeOf(5, w, s, p, t, next, WidthPart(s, p, specs, next, t))
  {
    hide PrecisionPart, MadeOf, DynamicAt, IsDynamic, DynamicMeaning, CounterAfter, StartsWidth;
    w := NOTHING;
    var r := WidthPart(s, p, specs, next, t);
    if p < |s| && StartsWidth(s[p]) {
      if r.Failed? {
        NothingRead(5, s, p, t, next, r);
      } else {
        var d := DynamicAt(s, p, specs.width, specs.widthRef, next);
        DynamicAccepted(s, p, specs.width, specs.widthRef, next, d.end);
        CounterIsMeant(s[p..d.end], specs.width, specs.widthRef, next, d.end);
        w := PrecisionMade(s, d.end, specs.(width := d.value, widthRef := d.ref, widthKind := d.kind), d.next, t);
        w := Before(5, w, s, p, d.end, t, next, d.next, r);
      }
    } else {
      w := PrecisionMade(s, p, specs, next, t);
      w := Before(5, w, s, p, p, t, next, next, r);
    }
  }

  lemma ZeroMade(s: seq<Unit>, p: nat, specs: Specs, next: int, t: ArgType) returns (w: Parts)
    requires p <= |s|
    ensures MadeOf(4, w, s, p, t, next, ZeroPart(s, p, specs, next, t))
  {
    hide WidthPart, MadeOf, ZeroFlag, IsArithmetic;
    w := NOTHING;
    var r := ZeroPart(s, p, specs, next, t);
    if p < |s| && s[p] == '0' {
      if IsArithmetic(t) {
        w := WidthMade(s, p + 1, ZeroFlag(specs), next, t);
        w := Before(4, w, s, p, p + 1, t, next, next, r);
      } else {
        NothingRead(4, s, p, t, next, r);
      }
    } else {
      w := WidthMade(s, p, specs, next, t);
      w := Before(4, w, s, p, p, t, next, next, r);
    }
  }

  lemma HashMade(s: seq<Unit>, p: nat, specs: Specs, next: int, t: ArgType) returns (w: Parts)
    requires p <= |s|
    ensures MadeOf(3, w, s, p, t, next, HashPart(s, p, specs, next, t))
  {
    hide ZeroPart, MadeOf, IsArithmetic;
    w := NOTHING;
    var r := HashPart(s, p, specs, next, t);
    if p < |s| && s[p] == '#' {
      if IsArithmetic(t) {
        w := ZeroMade(s, p + 1, specs.(alt := true), next, t);
        w := Before(3, w, s, p, p + 1, t, next, next, r);
      } else {
        NothingRead(3, s, p, t, next, r);
      }
    } else {
      w := ZeroMade(s, p, specs, next, t);
      w := Before(3, w, s, p, p, t, next, next, r);
    }
  }

  lemma SignMade(s: seq<Unit>, p: nat, specs: Specs, next: int, t: ArgType) returns (w: Parts)
    requires p <= |s|
    ensures MadeOf(2, w, s, p, t, next, SignPart(s, p, specs, next, t))
  {
    hide HashPart, MadeOf, IsSint, IsFloat;
    w := NOTHING;
    var r := SignPart(s, p, specs, next, t);
    if p < |s| && IsSignChar(s[p]) {
      if IsSint(t) || IsFloat(t) {
        var sign := if s[p] == ' ' then Space else if s[p] == '+' then Plus else specs.sign;
        w := HashMade(s, p + 1, specs.(sign := sign), next, t);
        w := Before(2, w, s, p, p + 1, t, next, next, r);
      } else {
        NothingRead(2, s, p, t, next, r);
      }
    } else {
      w := HashMade(s, p, specs, next, t);
      w := Before(2, w, s, p, p, t, next, next, r);
    }
  }

  /** A spec of one unit that is no alignment is not followed by an alignment: it would be a fill. */
  predicate NoFill(w: Parts, s: seq<Unit>, end: nat)
    requires end <= |s|
  {
    w[0] == [] && |TextFrom(1, w)| == 1 && end < |s| ==> ParseAlign(s[end]) == NoAlign
  }

  lemma AlignMade(s: seq<Unit>, p: nat, specs: Specs, next: int, t: ArgType) returns (w: Parts)
    requires p < |s|
    ensures MadeOf(1, w, s, p, t, next, AlignPart(s, p, specs, next, t))
    ensures w[0] == [] ==> !FillAhead(s, p) || w == NOTHING
  {
    hide SignPart, MadeOf, FillAhead, CodePointLength, ParseAlign;
    w := NOTHING;
    var r, fillEnd := AlignPart(s, p, specs, next, t), p + CodePointLength(s[p]);
    if FillAhead(s, p) {
      if s[p] == '}' || fillEnd >= |s| || s[p] == '{' || ParseAlign(s[fillEnd]) == NoAlign {
        NothingRead(1, s, p, t, next, r);
      } else {
        w := SignMade(s, fillEnd + 1, specs.(fill := s[p..fillEnd], align := ParseAlign(s[fillEnd])), next, t);
        w := AlignBefore(w, s, p, fillEnd + 1, t, next, r);
      }
    } else if ParseAlign(s[p]) != NoAlign {
      w := SignMade(s, p + 1, specs.(align := ParseAlign(s[p])), next, t);
      w := AlignBefore(w, s, p, p + 1, t, next, r);
    } else {
      w := SignMade(s, p, specs, next, t);
      w := Before(1, w, s, p, p, t, next, next, r);
    }
  }

  lemma AlignBefore(w: Parts, s: seq<Unit>, p: nat, q: nat, t: ArgType, next: int, r: Result) returns (w': Parts)
    requires p < q <= |s| && MadeOf(2, w, s, q, t, next, r) && IsAlignText(s[p..q])
    ensures MadeOf(1, w', s, p, t, next, r)
    ensures w'[0] == [] ==> w' == NOTHING
  {
    hide MadeOf, IsAlignText;
    w' := NOTHING;
    if r.Done? {
      w' := Before(1, w, s, p, q, t, next, next, r);
    } else {
      NothingRead(1, s, p, t, next, r);
    }
  }

  /** Whatever is accepted is fill and alignment, sign, '#', '0', width, precision, 'L' and type, each at
      most once, in this order, each suited to the argument, up to where such a text can end. */
  lemma AcceptedInOrder(s: seq<Unit>, begin: nat, specs: Specs, next: int, t: ArgType) returns (w: Parts)
    requires begin <= |s| && PartsAfter(0, s, begin, specs, next, t).Done?
    ensures var end := PartsAfter(0, s, begin, specs, next, t).end;
      && begin <= end <= |s| && s[begin..end] == TextFrom(1, w) && Written(w, t, next)
      && EndsAt(w, s, end) && NoFill(w, s, end)
  {
    hide AlignPart, Written, TextFrom;
    if begin < |s| {
      w := AlignMade(s, begin, specs, next, t);
      NoText(1, NOTHING);
    } else {
      w := NOTHING;
      NothingRead(1, s, begin, t, next, Done(begin, specs, next));
    }
  }
}
