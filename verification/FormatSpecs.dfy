/** The format-spec parser: a loop over one switch, against the grammar read in order. */
module FormatSpecs {
  import opened FormatScan

  /** Code units of a narrow string. */
  type Unit = c: char | c as int < 256 witness 'a'

  datatype ArgType =
    | NoneType | IntType | UintType | LongLongType | UlongLongType | Int128Type | Uint128Type | BoolType | CharType
    | FloatType | DoubleType | LongDoubleType
    | CstringType | StringType | PointerType | CustomType

  datatype Align = NoAlign | Left | Right | Center | Numeric
  datatype Sign = NoSign | Minus | Plus | Space
  datatype Kind = NoKind | ByIndex | ByName
  datatype Ref = NoRef | RefIndex(id: int) | RefName(name: seq<Unit>)

  datatype Specs = Specs(
    presentation: nat, align: Align, fill: seq<Unit>, sign: Sign, upper: bool, alt: bool, localized: bool,
    width: int, widthRef: Ref, widthKind: Kind, precision: int, precisionRef: Ref, precisionKind: Kind)

  const DEFAULT: Specs :=
    Specs(0, NoAlign, [' '], NoSign, false, false, false, 0, NoRef, NoKind, -1, NoRef, NoKind)

  /** The outcome of a parse; a reported error ends it. next is the argument counter of the context:
      negative once ids are given by hand, positive once they are counted. */
  datatype Result = Failed | Done(end: nat, specs: Specs, next: int)

  // ----- Types and characters -----

  predicate IsSint(t: ArgType) { t.IntType? || t.LongLongType? || t.Int128Type? }

  predicate IsUint(t: ArgType) { t.UintType? || t.UlongLongType? || t.Uint128Type? }

  predicate IsFloat(t: ArgType) { t.FloatType? || t.DoubleType? || t.LongDoubleType? }

  predicate IsIntegral(t: ArgType) { IsSint(t) || IsUint(t) || t.BoolType? || t.CharType? }

  predicate IsArithmetic(t: ArgType) { IsIntegral(t) || IsFloat(t) }

  function ParseAlign(c: Unit): Align
  {
    if c == '<' then Left else if c == '>' then Right else if c == '^' then Center else NoAlign
  }

  /** The length announced by the first unit of a UTF-8 sequence, read from a table of two-bit entries. */
  function CodePointLength(c: Unit): (n: nat)
    ensures 1 <= n <= 4
  {
    0x3a55000000000000 / Pow4(c as int / 8) % 4 + 1
  }

  function Pow4(n: nat): (p: nat)
    ensures 0 < p
  {
    if n == 0 then 1 else 4 * Pow4(n - 1)
  }

  // ----- Width and precision -----

  datatype Dynamic = BadDynamic | Dynamic(end: nat, value: int, ref: Ref, kind: Kind, next: int)

  /** A number, or an argument reference in braces; value and ref are kept where nothing is given. */
  function DynamicAt(s: seq<Unit>, begin: nat, value: int, ref: Ref, next: int): (r: Dynamic)
    requires begin < |s|
    ensures r.Dynamic? ==> begin < r.end <= |s|
  {
    if IsDigit(s[begin]) then
      var val := IntValue(s, begin, -1);
      if val == -1 then BadDynamic else Dynamic(DigitsEnd(s, begin), val, ref, NoKind, next)
    else if s[begin] != '{' || begin + 1 == |s| then BadDynamic
    else if s[begin + 1] == '}' || s[begin + 1] == ':' then
      if next < 0 || s[begin + 1] != '}' then BadDynamic
      else Dynamic(begin + 2, value, RefIndex(next), ByIndex, next + 1)
    else
      match ArgIdAt(s, begin + 1)
      case BadArgId => BadDynamic
      case Index(id, end) =>
        if next > 0 || end == |s| || s[end] != '}' then BadDynamic
        else Dynamic(end + 1, value, RefIndex(id), ByIndex, -1)
      case Name(name, end) =>
        if end == |s| || s[end] != '}' then BadDynamic
        else Dynamic(end + 1, value, RefName(name), ByName, -1)
  }

  /** A plain number that fits; leading zeros count as digits. */
  predicate IsNumber(text: seq<Unit>)
  {
    0 < |text| <= 10 && AllDigits(text) && Decimal(text) <= INT_MAX
  }

  function Inside(text: seq<Unit>): seq<Unit>
    requires 2 <= |text|
  {
    text[1..|text| - 1]
  }

  predicate IsBraced(text: seq<Unit>) { 2 <= |text| && text[0] == '{' && text[|text| - 1] == '}' }

  /** The texts that can stand for a width or a precision while the counter is next: a number, braces
      with nothing inside unless ids were given before, an id by number unless ids were counted before,
      an id by name at any time. */
  predicate IsDynamic(text: seq<Unit>, next: int)
  {
    || IsNumber(text)
    || (IsBraced(text) && |text| == 2 && 0 <= next)
    || (IsBraced(text) && IsIdNumber(Inside(text)) && next <= 0)
    || (IsBraced(text) && IsName(Inside(text)))
  }

  /** What such a text means when it ends at end. */
  function DynamicMeaning(text: seq<Unit>, value: int, ref: Ref, next: int, end: nat): (d: Dynamic)
    requires IsDynamic(text, next)
    ensures d.Dynamic? && d.end == end
  {
    if IsNumber(text) then Dynamic(end, Decimal(text), ref, NoKind, next)
    else if |text| == 2 then Dynamic(end, value, RefIndex(next), ByIndex, next + 1)
    else if IsIdNumber(Inside(text)) then Dynamic(end, value, RefIndex(IdValue(Inside(text))), ByIndex, -1)
    else Dynamic(end, value, RefName(Inside(text)), ByName, -1)
  }

  /** What starts with a digit is accepted as the longest run of digits, if that is a number that fits. */
  lemma NumberAccepted(s: seq<Unit>, begin: nat, value: int, ref: Ref, next: int, end: nat)
    requires begin < |s| && IsDigit(s[begin])
    ensures var d := DynamicAt(s, begin, value, ref, next);
      d.Dynamic? && d.end == end <==> begin < end <= |s| && IsNumber(s[begin..end]) && (end < |s| ==> !IsDigit(s[end]))
    ensures var d := DynamicAt(s, begin, value, ref, next);
      d.Dynamic? ==> d == Dynamic(d.end, Decimal(s[begin..d.end]), ref, NoKind, next)
  {
    hide Decimal;
    var e := DigitsEnd(s, begin);
    assert forall i :: 0 <= i < e - begin ==> s[begin..e][i] == s[begin + i];
    if begin < end <= |s| && IsNumber(s[begin..end]) && (end < |s| ==> !IsDigit(s[end])) {
      forall i | begin <= i < end ensures IsDigit(s[i]) {
        assert s[i] == s[begin..end][i - begin];
      }
      DigitsEndIs(s, begin, end);
    }
  }

  lemma InsideIs(s: seq<Unit>, begin: nat, end: nat)
    requires begin + 2 <= end <= |s|
    ensures Inside(s[begin..end]) == s[begin + 1..end - 1]
  {
    var text, inner := s[begin..end], s[begin + 1..end - 1];
    assert forall i :: 0 <= i < |inner| ==> Inside(text)[i] == text[i + 1] == inner[i];
  }

  lemma BracesSound(s: seq<Unit>, begin: nat, value: int, ref: Ref, next: int)
    requires begin < |s| && !IsDigit(s[begin]) && DynamicAt(s, begin, value, ref, next).Dynamic?
    ensures var d := DynamicAt(s, begin, value, ref, next); var text := s[begin..d.end];
      IsDynamic(text, next) && d == DynamicMeaning(text, value, ref, next, d.end)
  {
    hide IsNumber, IsIdNumber, IsName, IdValue, ArgIdAt;
    var d := DynamicAt(s, begin, value, ref, next);
    var text := s[begin..d.end];
    assert text[0] == s[begin] == '{' && text[|text| - 1] == s[d.end - 1];
    NumberStarts(text);
    if |text| != 2 {
      InsideIs(s, begin, d.end);
      NameIsNoNumber(Inside(text));
      NumberIdAccepted(s, begin + 1, IdOf(ArgIdAt(s, begin + 1)), d.end - 1);
      NameAccepted(s, begin + 1, NameOf(ArgIdAt(s, begin + 1)), d.end - 1);
    }
  }

  function IdOf(id: ArgId): int { if id.Index? then id.id else 0 }

  function NameOf(id: ArgId): string { if id.Name? then id.name else [] }

  lemma BracesComplete(s: seq<Unit>, begin: nat, value: int, ref: Ref, next: int, end: nat)
    requires begin < end <= |s| && !IsDigit(s[begin]) && IsDynamic(s[begin..end], next)
    ensures DynamicAt(s, begin, value, ref, next) == DynamicMeaning(s[begin..end], value, ref, next, end)
  {
    hide IsNumber, IsIdNumber, IsName, IdValue, ArgIdAt;
    var text := s[begin..end];
    assert text[0] == s[begin] && text[|text| - 1] == s[end - 1];
    NumberStarts(text);
    assert |text| == end - begin && IsBraced(text);
    InsideIs(s, begin, end);
    NameIsNoNumber(Inside(text));
    if |text| == 2 {
      assert s[begin + 1] == '}';
    } else {
      assert Inside(text)[0] == s[begin + 1];
      if IsIdNumber(Inside(text)) {
        NumberIdAccepted(s, begin + 1, IdValue(Inside(text)), end - 1);
      } else {
        NameAccepted(s, begin + 1, Inside(text), end - 1);
      }
    }
  }

  lemma NumberStarts(text: seq<Unit>)
    ensures IsNumber(text) ==> IsDigit(text[0])
  {
  }

  /** A width or precision is accepted up to end exactly when that text is one, given the counter, and a
      number is not cut short; and then it means what the text says. */
  lemma DynamicAccepted(s: seq<Unit>, begin: nat, value: int, ref: Ref, next: int, end: nat)
    requires begin < |s|
    ensures var d := DynamicAt(s, begin, value, ref, next);
      d.Dynamic? && d.end == end
      <==> begin < end <= |s| && IsDynamic(s[begin..end], next)
           && (IsDigit(s[begin]) && end < |s| ==> !IsDigit(s[end]))
    ensures var d := DynamicAt(s, begin, value, ref, next);
      d.Dynamic? ==> IsDynamic(s[begin..d.end], next) && d == DynamicMeaning(s[begin..d.end], value, ref, next, d.end)
  {
    hide DynamicAt, IsNumber, IsName, IsIdNumber;
    var d := DynamicAt(s, begin, value, ref, next);
    if IsDigit(s[begin]) {
      NumberAccepted(s, begin, value, ref, next, end);
      if d.Dynamic? {
        NumberAccepted(s, begin, value, ref, next, d.end);
      }
      if begin < end <= |s| {
        assert s[begin..end][0] == s[begin];
      }
    } else {
      if d.Dynamic? {
        BracesSound(s, begin, value, ref, next);
      }
      if begin < end <= |s| && IsDynamic(s[begin..end], next) {
        BracesComplete(s, begin, value, ref, next, end);
      }
    }
  }

  // ----- Presentation types -----

  /** The presentation of a type letter, whether it asks for upper case, and whether it suits the argument. */
  datatype Letter = NoLetter | Letter(presentation: nat, upper: bool, allowed: bool)

  function LetterOf(c: Unit, t: ArgType): Letter
  {
    match c
    case 'd' => Letter(3, false, IsIntegral(t))
    case 'X' => Letter(4, true, IsIntegral(t))
    case 'x' => Letter(4, false, IsIntegral(t))
    case 'o' => Letter(5, false, IsIntegral(t))
    case 'B' => Letter(6, true, IsIntegral(t))
    case 'b' => Letter(6, false, IsIntegral(t))
    case 'E' => Letter(1, true, IsFloat(t))
    case 'e' => Letter(1, false, IsFloat(t))
    case 'F' => Letter(2, true, IsFloat(t))
    case 'f' => Letter(2, false, IsFloat(t))
    case 'G' => Letter(3, true, IsFloat(t))
    case 'g' => Letter(3, false, IsFloat(t))
    case 'A' => Letter(4, true, IsFloat(t))
    case 'a' => Letter(4, false, IsFloat(t))
    case 'c' => Letter(7, false, IsIntegral(t) && !t.BoolType?)
    case 's' => Letter(2, false, t.BoolType? || t.StringType? || t.CstringType?)
    case 'p' => Letter(3, false, t.PointerType? || t.CstringType?)
    case '?' => Letter(1, false, t.CharType? || t.StringType? || t.CstringType?)
    case _ => NoLetter
  }

  /** The letters, what each stands for, which ask for upper case, and which arguments admit them. The
      presentations are 1 debug or exponent, 2 string or fixed, 3 decimal, pointer or general, 4 hexadecimal
      or hexadecimal float, 5 octal, 6 binary, 7 character. */
  lemma LetterTable(c: Unit, t: ArgType)
    ensures LetterOf(c, t).Letter? <==> c in "dXxoBbEeFfGgAacsp?"
    ensures var l := LetterOf(c, t);
      l.Letter? ==>
        && l.presentation == (if c in "?eE" then 1 else if c in "sfF" then 2 else if c in "dpgG" then 3
                              else if c in "xXaA" then 4 else if c == 'o' then 5 else if c in "bB" then 6 else 7)
        && (l.upper <==> c in "XBEFGA")
  {
    hide IsIntegral, IsFloat;
    LettersAre(c, t);
  }

  lemma LettersAre(c: Unit, t: ArgType)
    ensures LetterOf(c, t).Letter? <==> c in "dXxoBbEeFfGgAacsp?"
    ensures LetterOf(c, t).Letter? ==> (LetterOf(c, t).upper <==> c in "XBEFGA")
  {
    hide IsIntegral, IsFloat;
  }

  lemma LetterAdmitted(c: Unit, t: ArgType)
    ensures LetterOf(c, t).Letter? && LetterOf(c, t).allowed <==> AdmitsLetter(c, t)
  {
    TypesOfLetters(t);
    hide IsIntegral, IsFloat;
  }

  lemma TypesOfLetters(t: ArgType)
    ensures IsIntegral(t) <==> t in {IntType, LongLongType, Int128Type, UintType, UlongLongType, Uint128Type, BoolType, CharType}
    ensures IsFloat(t) <==> t in {FloatType, DoubleType, LongDoubleType}
  {
  }

  /** Which letters an argument of each type admits. */
  predicate AdmitsLetter(c: Unit, t: ArgType)
  {
    match t
    case IntType | LongLongType | Int128Type | UintType | UlongLongType | Uint128Type => c in "dxXobBc"
    case BoolType => c in "dxXobBs"
    case CharType => c in "dxXobBc?"
    case FloatType | DoubleType | LongDoubleType => c in "eEfFgGaA"
    case CstringType => c in "sp?"
    case StringType => c in "s?"
    case PointerType => c == 'p'
    case NoneType | CustomType => false
  }

  lemma AlignTable(c: Unit)
    ensures ParseAlign(c) == NoAlign <==> c !in "<>^"
    ensures ParseAlign('<') == Left && ParseAlign('>') == Right && ParseAlign('^') == Center
  {
  }

  lemma TypeSets(t: ArgType)
    ensures IsSint(t) || IsFloat(t)
            <==> t in {IntType, LongLongType, Int128Type, FloatType, DoubleType, LongDoubleType}
    ensures IsFloat(t) <==> t in {FloatType, DoubleType, LongDoubleType}
    ensures !IsArithmetic(t) <==> t in {NoneType, CstringType, StringType, PointerType, CustomType}
  {
  }

  // ----- The grammar: [[fill]align][sign]["#"]["0"][width]["." precision]["L"][type] -----

  predicate IsSignChar(c: Unit) { c == '+' || c == '-' || c == ' ' }

  predicate StartsWidth(c: Unit) { '1' <= c <= '9' || c == '{' }

  /** A character some part of the grammar, or its end, begins with. */
  predicate Known(c: Unit)
  {
    ParseAlign(c) != NoAlign || IsSignChar(c) || c == '#' || c == '0' || StartsWidth(c) || c == '.' || c == 'L'
    || LetterOf(c, CustomType).Letter? || c == '}'
  }

  /** A fill is recognised by an alignment behind it, or because nothing else starts like this. */
  predicate FillAhead(s: seq<Unit>, p: nat)
    requires p < |s|
  {
    (p + 1 < |s| && ParseAlign(s[p + 1]) != NoAlign) || !Known(s[p])
  }

  function AlignPart(s: seq<Unit>, p: nat, specs: Specs, next: int, t: ArgType): Result
    requires p < |s|
  {
    if FillAhead(s, p) then
      var fillEnd := p + CodePointLength(s[p]);
      if s[p] == '}' then Done(p, specs, next)
      else if fillEnd >= |s| || s[p] == '{' || ParseAlign(s[fillEnd]) == NoAlign then Failed
      else SignPart(s, fillEnd + 1, specs.(fill := s[p..fillEnd], align := ParseAlign(s[fillEnd])), next, t)
    else if ParseAlign(s[p]) != NoAlign then SignPart(s, p + 1, specs.(align := ParseAlign(s[p])), next, t)
    else SignPart(s, p, specs, next, t)
  }

  function SignPart(s: seq<Unit>, p: nat, specs: Specs, next: int, t: ArgType): Result
    requires p <= |s|
  {
    if p < |s| && IsSignChar(s[p]) then
      var sign := if s[p] == ' ' then Space else if s[p] == '+' then Plus else specs.sign;
      if !IsSint(t) && !IsFloat(t) then Failed else HashPart(s, p + 1, specs.(sign := sign), next, t)
    else HashPart(s, p, specs, next, t)
  }

  function HashPart(s: seq<Unit>, p: nat, specs: Specs, next: int, t: ArgType): Result
    requires p <= |s|
  {
    if p < |s| && s[p] == '#' then
      if !IsArithmetic(t) then Failed else ZeroPart(s, p + 1, specs.(alt := true), next, t)
    else ZeroPart(s, p, specs, next, t)
  }

  /** The zero flag is ignored when an alignment was given. */
  function ZeroFlag(specs: Specs): Specs
  {
    if specs.align == NoAlign then specs.(align := Numeric, fill := ['0']) else specs
  }

  function ZeroPart(s: seq<Unit>, p: nat, specs: Specs, next: int, t: ArgType): Result
    requires p <= |s|
  {
    if p < |s| && s[p] == '0' then
      if !IsArithmetic(t) then Failed else WidthPart(s, p + 1, ZeroFlag(specs), next, t)
    else WidthPart(s, p, specs, next, t)
  }

  function WidthPart(s: seq<Unit>, p: nat, specs: Specs, next: int, t: ArgType): Result
    requires p <= |s|
  {
    if p < |s| && StartsWidth(s[p]) then
      match DynamicAt(s, p, specs.width, specs.widthRef, next)
      case BadDynamic => Failed
      case Dynamic(end, value, ref, kind, next') =>
        PrecisionPart(s, end, specs.(width := value, widthRef := ref, widthKind := kind), next', t)
    else PrecisionPart(s, p, specs, next, t)
  }

  function PrecisionPart(s: seq<Unit>, p: nat, specs: Specs, next: int, t: ArgType): Result
    requires p <= |s|
  {
    if p < |s| && s[p] == '.' then
      if (!IsFloat(t) && !t.StringType? && !t.CstringType?) || p + 1 == |s| then Failed
      else
        match DynamicAt(s, p + 1, specs.precision, specs.precisionRef, next)
        case BadDynamic => Failed
        case Dynamic(end, value, ref, kind, next') =>
          LocalePart(s, end, specs.(precision := value, precisionRef := ref, precisionKind := kind), next', t)
    else LocalePart(s, p, specs, next, t)
  }

  function LocalePart(s: seq<Unit>, p: nat, specs: Specs, next: int, t: ArgType): Result
    requires p <= |s|
  {
    if p < |s| && s[p] == 'L' then
      if !IsArithmetic(t) then Failed else TypePart(s, p + 1, specs.(localized := true), next, t)
    else TypePart(s, p, specs, next, t)
  }

  function TypePart(s: seq<Unit>, p: nat, specs: Specs, next: int, t: ArgType): Result
    requires p <= |s|
  {
    if p == |s| || s[p] == '}' then Done(p, specs, next)
    else
      match LetterOf(s[p], t)
      case NoLetter => Failed
      case Letter(presentation, upper, allowed) =>
        if allowed then Done(p + 1, specs.(presentation := presentation, upper := specs.upper || upper), next) else Failed
  }

  /** The parts still possible after a state: 0 start, 1 align, 2 sign, 3 hash, 4 zero, 5 width, 6 precision, 7 locale. */
  function PartsAfter(state: nat, s: seq<Unit>, p: nat, specs: Specs, next: int, t: ArgType): Result
    requires p <= |s|
  {
    if state == 0 then if p == |s| then Done(p, specs, next) else AlignPart(s, p, specs, next, t)
    else if state == 1 then SignPart(s, p, specs, next, t)
    else if state == 2 then HashPart(s, p, specs, next, t)
    else if state == 3 then ZeroPart(s, p, specs, next, t)
    else if state == 4 then WidthPart(s, p, specs, next, t)
    else if state == 5 then PrecisionPart(s, p, specs, next, t)
    else if state == 6 then LocalePart(s, p, specs, next, t)
    else TypePart(s, p, specs, next, t)
  }

  // ----- The loop -----

  /** The state a character asks for in the switch; 8 stands for a type letter, 9 for the closing brace,
      10 for everything else. */
  function StateOf(c: Unit): nat
  {
    if ParseAlign(c) != NoAlign then 1
    else if IsSignChar(c) then 2
    else if c == '#' then 3
    else if c == '0' then 4
    else if StartsWidth(c) then 5
    else if c == '.' then 6
    else if c == 'L' then 7
    else if LetterOf(c, CustomType).Letter? then 8
    else if c == '}' then 9
    else 10
  }

  /** One token of kind StateOf(s[p]) read at p, and the parts that may follow. */
  function TokenResult(s: seq<Unit>, p: nat, specs: Specs, next: int, t: ArgType): Result
    requires p < |s|
  {
    var c, k := s[p], StateOf(s[p]);
    if k == 1 then PartsAfter(1, s, p + 1, specs.(align := ParseAlign(c)), next, t)
    else if k == 2 then
      if !IsSint(t) && !IsFloat(t) then Failed
      else PartsAfter(2, s, p + 1, if c == '-' then specs else specs.(sign := if c == ' ' then Space else Plus), next, t)
    else if k == 3 then
      if !IsArithmetic(t) then Failed else PartsAfter(3, s, p + 1, specs.(alt := true), next, t)
    else if k == 4 then
      if !IsArithmetic(t) then Failed else PartsAfter(4, s, p + 1, ZeroFlag(specs), next, t)
    else if k == 5 then
      match DynamicAt(s, p, specs.width, specs.widthRef, next)
      case BadDynamic => Failed
      case Dynamic(end, value, ref, kind, next') =>
        PartsAfter(5, s, end, specs.(width := value, widthRef := ref, widthKind := kind), next', t)
    else if k == 6 then
      if (!IsFloat(t) && !t.StringType? && !t.CstringType?) || p + 1 == |s| then Failed
      else
        match DynamicAt(s, p + 1, specs.precision, specs.precisionRef, next)
        case BadDynamic => Failed
        case Dynamic(end, value, ref, kind, next') =>
          PartsAfter(6, s, end, specs.(precision := value, precisionRef := ref, precisionKind := kind), next', t)
    else if k == 7 then
      if !IsArithmetic(t) then Failed else PartsAfter(7, s, p + 1, specs.(localized := true), next, t)
    else if k == 8 then
      var l := LetterOf(c, t);
      if l.Letter? && l.allowed then Done(p + 1, specs.(presentation := l.presentation, upper := specs.upper || l.upper), next)
      else Failed
    else if k == 9 then Done(p, specs, next)
    else Failed
  }

  function FillResult(s: seq<Unit>, p: nat, specs: Specs, next: int, t: ArgType): Result
    requires p < |s|
  {
    var fillEnd := p + CodePointLength(s[p]);
    if s[p] == '}' then Done(p, specs, next)
    else if fillEnd >= |s| || s[p] == '{' || ParseAlign(s[fillEnd]) == NoAlign then Failed
    else PartsAfter(1, s, fillEnd + 1, specs.(fill := s[p..fillEnd], align := ParseAlign(s[fillEnd])), next, t)
  }

  /** A part that does not start here is skipped. */
  lemma SkipOne(state: nat, s: seq<Unit>, p: nat, specs: Specs, next: int, t: ArgType)
    requires 1 <= state <= 6 && p < |s| && StateOf(s[p]) != state + 1
    ensures PartsAfter(state, s, p, specs, next, t) == PartsAfter(state + 1, s, p, specs, next, t)
  {
    hide PartsAfter, StateOf;
    if state <= 3 {
      SkipFlags(state, s, p, specs, next, t);
    } else {
      SkipOthers(state, s, p, specs, next, t);
    }
  }

  lemma SkipFlags(state: nat, s: seq<Unit>, p: nat, specs: Specs, next: int, t: ArgType)
    requires 1 <= state <= 3 && p < |s| && StateOf(s[p]) != state + 1
    ensures PartsAfter(state, s, p, specs, next, t) == PartsAfter(state + 1, s, p, specs, next, t)
  {
    hide DynamicAt, LetterOf, WidthPart;
  }

  lemma SkipOthers(state: nat, s: seq<Unit>, p: nat, specs: Specs, next: int, t: ArgType)
    requires 4 <= state <= 6 && p < |s| && StateOf(s[p]) != state + 1
    ensures PartsAfter(state, s, p, specs, next, t) == PartsAfter(state + 1, s, p, specs, next, t)
  {
    hide DynamicAt, LetterOf, TypePart;
  }

  /** Parts in between are skipped up to the one that starts with s[p], or to the type at the end. */
  lemma {:induction false} SkipTo(state: nat, s: seq<Unit>, p: nat, specs: Specs, next: int, t: ArgType)
    requires 1 <= state <= 7 && p < |s|
    ensures var k := StateOf(s[p]);
      PartsAfter(state, s, p, specs, next, t)
      == PartsAfter(if state < k <= 7 then k - 1 else 7, s, p, specs, next, t)
    decreases 7 - state
  {
    hide PartsAfter, StateOf;
    if state < 7 && StateOf(s[p]) != state + 1 {
      SkipOne(state, s, p, specs, next, t);
      SkipTo(state + 1, s, p, specs, next, t);
    }
  }

  /** The part that starts with s[p] reads one token and hands over to the parts behind it. */
  lemma TokenAt(s: seq<Unit>, p: nat, specs: Specs, next: int, t: ArgType)
    requires p < |s| && 2 <= StateOf(s[p]) <= 7
    ensures PartsAfter(StateOf(s[p]) - 1, s, p, specs, next, t) == TokenResult(s, p, specs, next, t)
  {
    if StateOf(s[p]) == 2 {
      SignToken(s, p, specs, next, t);
    } else if StateOf(s[p]) <= 4 {
      FlagToken(s, p, specs, next, t);
    } else {
      OtherToken(s, p, specs, next, t);
    }
  }

  lemma SignToken(s: seq<Unit>, p: nat, specs: Specs, next: int, t: ArgType)
    requires p < |s| && StateOf(s[p]) == 2
    ensures PartsAfter(1, s, p, specs, next, t) == TokenResult(s, p, specs, next, t)
  {
    hide DynamicAt, LetterOf, HashPart, IsSint, IsFloat;
  }

  lemma FlagToken(s: seq<Unit>, p: nat, specs: Specs, next: int, t: ArgType)
    requires p < |s| && 3 <= StateOf(s[p]) <= 4
    ensures PartsAfter(StateOf(s[p]) - 1, s, p, specs, next, t) == TokenResult(s, p, specs, next, t)
  {
    hide DynamicAt, LetterOf, WidthPart, IsArithmetic, IsSint, IsFloat;
  }

  lemma OtherToken(s: seq<Unit>, p: nat, specs: Specs, next: int, t: ArgType)
    requires p < |s| && 5 <= StateOf(s[p]) <= 7
    ensures PartsAfter(StateOf(s[p]) - 1, s, p, specs, next, t) == TokenResult(s, p, specs, next, t)
  {
    hide DynamicAt, LetterOf, TypePart, IsArithmetic, IsFloat;
  }

  /** Only a type letter or the closing brace can stand where the type is read. */
  lemma TypeToken(s: seq<Unit>, p: nat, specs: Specs, next: int, t: ArgType)
    requires p < |s|
    ensures PartsAfter(7, s, p, specs, next, t)
            == if StateOf(s[p]) <= 7 then Failed else TokenResult(s, p, specs, next, t)
  {
    hide DynamicAt, LetterOf, ParseAlign;
    LetterForAll(s[p], t);
    ClosingBrace(s[p]);
  }

  lemma StartToken(s: seq<Unit>, p: nat, specs: Specs, next: int, t: ArgType)
    requires p < |s|
    ensures PartsAfter(0, s, p, specs, next, t)
            == if FillAhead(s, p) then FillResult(s, p, specs, next, t)
               else if StateOf(s[p]) == 1 then TokenResult(s, p, specs, next, t)
               else PartsAfter(1, s, p, specs, next, t)
    ensures !FillAhead(s, p) ==> StateOf(s[p]) != 10
  {
    hide DynamicAt, CodePointLength, SignPart, LetterOf, Known;
    KnownHasState(s[p]);
    StateRange(s[p]);
  }

  lemma KnownHasState(c: Unit)
    ensures Known(c) <==> StateOf(c) != 10
    ensures ParseAlign(c) != NoAlign <==> StateOf(c) == 1
  {
    hide LetterOf;
  }

  lemma ClosingBrace(c: Unit)
    ensures c == '}' <==> StateOf(c) == 9
  {
  }

  /** The grammar, seen as one step of a machine that only moves to later states. */
  lemma GrammarStep(state: nat, s: seq<Unit>, p: nat, specs: Specs, next: int, t: ArgType)
    requires state <= 7 && p < |s|
    ensures PartsAfter(state, s, p, specs, next, t)
            == if state == 0 && FillAhead(s, p) then FillResult(s, p, specs, next, t)
               else if StateOf(s[p]) <= state then Failed
               else TokenResult(s, p, specs, next, t)
  {
    hide PartsAfter, TokenResult, FillResult, FillAhead, StateOf;
    var k := StateOf(s[p]);
    StateRange(s[p]);
    if state == 0 {
      StartToken(s, p, specs, next, t);
    }
    if !(state == 0 && (FillAhead(s, p) || k == 1)) {
      SkipTo(if state == 0 then 1 else state, s, p, specs, next, t);
      if state < k <= 7 {
        TokenAt(s, p, specs, next, t);
      } else {
        TypeToken(s, p, specs, next, t);
      }
    }
  }

  lemma StateRange(c: Unit)
    ensures 1 <= StateOf(c) <= 10
  {
  }

  /** Which characters are type letters does not depend on the argument, and none begins another part. */
  lemma LetterForAll(c: Unit, t: ArgType)
    ensures LetterOf(c, t).Letter? <==> LetterOf(c, CustomType).Letter?
    ensures LetterOf(c, t).Letter? <==> StateOf(c) == 8
  {
  }

  /** The cases of the switch, and the default case as the place where a fill is read. */
  lemma SwitchCases(state: nat, s: seq<Unit>, p: nat, c: Unit, t: ArgType)
    requires p < |s|
    requires Looks(c, state, s, p)
    ensures StateOf(c) == if c == '<' || c == '>' || c == '^' then 1
                          else if c == '+' || c == ' ' || c == '-' then 2
                          else if c == '#' then 3
                          else if c == '0' then 4
                          else if '1' <= c <= '9' || c == '{' then 5
                          else if c == '.' then 6
                          else if c == 'L' then 7
                          else if LetterOf(c, t).Letter? then 8
                          else if c == '}' then 9 else 10
    ensures state == 0 ==> (FillAhead(s, p) <==> StateOf(c) == 10)
    ensures StateOf(c) != 10 ==> c == s[p]
  {
    LetterForAll(c, t);
    LetterForAll(s[p], t);
  }

  lemma GrammarAtEnd(state: nat, s: seq<Unit>, specs: Specs, next: int, t: ArgType)
    requires state <= 7
    ensures PartsAfter(state, s, |s|, specs, next, t) == Done(|s|, specs, next)
  {
    hide DynamicAt;
  }

  method ParseDynamicSpec(s: seq<Unit>, begin: nat, value: int, ref: Ref, next: int) returns (r: Dynamic)
    requires begin < |s|
    ensures r == DynamicAt(s, begin, value, ref, next)
    ensures forall end: nat :: r.Dynamic? && r.end == end
                          <==> begin < end <= |s| && IsDynamic(s[begin..end], next)
                               && (IsDigit(s[begin]) && end < |s| ==> !IsDigit(s[end]))
    ensures r.Dynamic? ==> r == DynamicMeaning(s[begin..r.end], value, ref, next, r.end)
  {
    hide IsDynamic, DynamicMeaning;
    forall end: nat
      ensures var d := DynamicAt(s, begin, value, ref, next);
        d.Dynamic? && d.end == end <==> begin < end <= |s| && IsDynamic(s[begin..end], next)
                                        && (IsDigit(s[begin]) && end < |s| ==> !IsDigit(s[end]))
    {
      DynamicAccepted(s, begin, value, ref, next, end);
    }
    DynamicAccepted(s, begin, value, ref, next, 0);
    if IsDigit(s[begin]) {
      var val, end := ParseNonnegativeInt(s, begin, -1);
      if val == -1 {
        return BadDynamic;
      }
      return Dynamic(end, val, ref, NoKind, next);
    }
    if s[begin] == '{' {
      var p := begin + 1;
      if p != |s| {
        var got, kind, next' := ref, NoKind, next;
        if s[p] == '}' || s[p] == ':' {
          if next < 0 {
            return BadDynamic;
          }
          got, kind, next' := RefIndex(next), ByIndex, next + 1;
        } else {
          var id := ParseArgId(s, p);
          match id {
            case BadArgId =>
              return BadDynamic;
            case Index(n, end) =>
              if next > 0 {
                return BadDynamic;
              }
              got, kind, next', p := RefIndex(n), ByIndex, -1, end;
            case Name(name, end) =>
              got, kind, next', p := RefName(name), ByName, -1, end;
          }
        }
        if p != |s| && s[p] == '}' {
          return Dynamic(p + 1, value, got, kind, next');
        }
      }
    }
    return BadDynamic;
  }

  /** What one pass through the switch does: end the parse, or go on at a later place in a later state. */
  datatype Pass = Stop(r: Result) | Go(state: nat, p: nat, specs: Specs, next: int)

  /** The pass agrees with the grammar: it stops with the grammar's result, or what the grammar still
      has to read from the new place gives that result. */
  predicate Advances(pass: Pass, whole: Result, state: nat, s: seq<Unit>, p: nat, t: ArgType)
  {
    match pass
    case Stop(r) => r == whole
    case Go(state', p', specs', next') =>
      state < state' <= 7 && p < p' <= |s| && PartsAfter(state', s, p', specs', next', t) == whole
  }

  /** The character the switch looks at: NUL where an alignment behind the first unit announces a fill. */
  predicate Looks(c: Unit, state: nat, s: seq<Unit>, p: nat)
    requires p < |s|
  {
    c == if state == 0 && p + 1 < |s| && ParseAlign(s[p + 1]) != NoAlign then '\0' else s[p]
  }

  /** The cases '<' to '0'. */
  method PassFlag(c: Unit, state: nat, s: seq<Unit>, p: nat, specs0: Specs, next: int, t: ArgType) returns (pass: Pass)
    requires state <= 7 && p < |s| && Looks(c, state, s, p) && StateOf(c) <= 4
    ensures Advances(pass, PartsAfter(state, s, p, specs0, next, t), state, s, p, t)
  {
    hide DynamicAt, PartsAfter, LetterOf, StateOf, FillAhead, FillResult, IsArithmetic, IsSint, IsFloat;
    GrammarStep(state, s, p, specs0, next, t);
    SwitchCases(state, s, p, c, t);
    var specs := specs0;
    if c == '<' || c == '>' || c == '^' {
      if state >= 1 {
        return Stop(Failed);
      }
      return Go(1, p + 1, specs.(align := ParseAlign(c)), next);
    } else if c == '+' || c == ' ' || c == '-' {
      if c != '-' {
        specs := specs.(sign := if c == ' ' then Space else Plus);
      }
      if state >= 2 || !(IsSint(t) || IsFloat(t)) {
        return Stop(Failed);
      }
      return Go(2, p + 1, specs, next);
    } else if c == '#' {
      if state >= 3 || !IsArithmetic(t) {
        return Stop(Failed);
      }
      return Go(3, p + 1, specs.(alt := true), next);
    } else {
      if state >= 4 || !IsArithmetic(t) {
        return Stop(Failed);
      }
      if specs.align == NoAlign {
        specs := specs.(align := Numeric, fill := ['0']);
      }
      return Go(4, p + 1, specs, next);
    }
  }

  /** The cases of a width, a precision and 'L'. */
  method PassNumber(c: Unit, state: nat, s: seq<Unit>, p: nat, specs: Specs, next: int, t: ArgType) returns (pass: Pass)
    requires state <= 7 && p < |s| && Looks(c, state, s, p) && 5 <= StateOf(c) <= 7
    ensures Advances(pass, PartsAfter(state, s, p, specs, next, t), state, s, p, t)
  {
    hide DynamicAt, DynamicMeaning, IsDynamic, PartsAfter, LetterOf, StateOf, FillAhead, FillResult, IsArithmetic, IsFloat;
    GrammarStep(state, s, p, specs, next, t);
    SwitchCases(state, s, p, c, t);
    if c == '.' {
      if state >= 6 || !(IsFloat(t) || t.StringType? || t.CstringType?) || p + 1 == |s| {
        return Stop(Failed);
      }
      var d := ParseDynamicSpec(s, p + 1, specs.precision, specs.precisionRef, next);
      if d.BadDynamic? {
        return Stop(Failed);
      }
      return Go(6, d.end, specs.(precision := d.value, precisionRef := d.ref, precisionKind := d.kind), d.next);
    } else if c == 'L' {
      if state >= 7 || !IsArithmetic(t) {
        return Stop(Failed);
      }
      return Go(7, p + 1, specs.(localized := true), next);
    } else {
      if state >= 5 {
        return Stop(Failed);
      }
      var d := ParseDynamicSpec(s, p, specs.width, specs.widthRef, next);
      if d.BadDynamic? {
        return Stop(Failed);
      }
      return Go(5, d.end, specs.(width := d.value, widthRef := d.ref, widthKind := d.kind), d.next);
    }
  }

  /** The type letters, the closing brace, and the default case, where a fill is read. */
  method PassEnd(c: Unit, state: nat, s: seq<Unit>, p: nat, specs: Specs, next: int, t: ArgType) returns (pass: Pass)
    requires state <= 7 && p < |s| && Looks(c, state, s, p) && StateOf(c) >= 8
    ensures Advances(pass, PartsAfter(state, s, p, specs, next, t), state, s, p, t)
  {
    hide DynamicAt, PartsAfter, LetterOf, StateOf, FillAhead, CodePointLength;
    GrammarStep(state, s, p, specs, next, t);
    SwitchCases(state, s, p, c, t);
    if LetterOf(c, t).Letter? {
      var letter := LetterOf(c, t);
      if !letter.allowed {
        return Stop(Failed);
      }
      return Stop(Done(p + 1, specs.(presentation := letter.presentation, upper := specs.upper || letter.upper), next));
    } else if c == '}' {
      return Stop(Done(p, specs, next));
    } else {
      if s[p] == '}' {
        ClosingBrace(s[p]);
        return Stop(Done(p, specs, next));
      }
      var fillEnd := p + CodePointLength(s[p]);
      if |s| - fillEnd <= 0 || s[p] == '{' {
        return Stop(Failed);
      }
      var alignment := ParseAlign(s[fillEnd]);
      if state >= 1 || alignment == NoAlign {
        return Stop(Failed);
      }
      return Go(1, fillEnd + 1, specs.(fill := s[p..fillEnd], align := alignment), next);
    }
  }

  /** The loop of the source reads the grammar in order: the same result on every string, for every
      type of argument. Every pass moves on in the text and to a strictly later state. */
  method ParseFormatSpecs(s: seq<Unit>, begin: nat, specs0: Specs, next0: int, t: ArgType) returns (r: Result)
    requires begin <= |s|
    ensures r == PartsAfter(0, s, begin, specs0, next0, t)
  {
    hide PartsAfter, StateOf;
    var c: Unit := '\0';
    if |s| - begin > 1 {
      if ParseAlign(s[begin + 1]) == NoAlign {
        c := s[begin];
      }
    } else {
      if begin == |s| {
        GrammarAtEnd(0, s, specs0, next0, t);
        return Done(begin, specs0, next0);
      }
      c := s[begin];
    }
    var specs, next, p, state := specs0, next0, begin, 0;
    while true
      invariant begin <= p < |s| && state <= 7
      invariant Looks(c, state, s, p)
      invariant PartsAfter(state, s, p, specs, next, t) == PartsAfter(0, s, begin, specs0, next0, t)
      decreases |s| - p, 7 - state
    {
      var pass: Pass;
      if StateOf(c) <= 4 {
        pass := PassFlag(c, state, s, p, specs, next, t);
      } else if StateOf(c) <= 7 {
        pass := PassNumber(c, state, s, p, specs, next, t);
      } else {
        pass := PassEnd(c, state, s, p, specs, next, t);
      }
      match pass {
        case Stop(result) =>
          return result;
        case Go(state', p', specs', next') =>
          state, p, specs, next := state', p', specs', next';
      }
      if p == |s| {
        GrammarAtEnd(state, s, specs, next, t);
        return Done(p, specs, next);
      }
      c := s[p];
    }
  }
}
