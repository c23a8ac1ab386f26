/** The outer format-string parser: literal text, doubled braces and replacement fields. */
module FormatString {
  import opened FormatScan

  /** What the parser tells its handler. Reported errors end the run, as the handlers throw. */
  datatype Event =
    | Text(s: string)
    | AutoId
    | IndexId(id: int)
    | NameId(name: string)
    | Replace(at: nat)
    | Specs(from: nat, stop: nat)

  datatype Parsed = Parsed(events: seq<Event>, ok: bool)

  datatype Option<T> = None | Some(value: T)

  /** Where the handler stops when it is given the format specs that start at a position. */
  type SpecsEnd = nat -> nat

  ghost predicate StaysInside(h: SpecsEnd, s: string)
  {
    forall p :: 0 <= p <= |s| ==> p <= h(p) <= |s|
  }

  /** One replacement field, from its opening brace: the events, and the position behind it. */
  function FieldAt(s: string, brace: nat, h: SpecsEnd): (r: (seq<Event>, Option<nat>))
    requires brace < |s| && StaysInside(h, s)
    ensures r.1.Some? ==> brace + 1 < r.1.value <= |s|
  {
    var begin := brace + 1;
    if begin == |s| then ([], None)
    else if s[begin] == '}' then ([AutoId, Replace(begin)], Some(begin + 1))
    else if s[begin] == '{' then ([Text(s[begin..begin + 1])], Some(begin + 1))
    else if s[begin] == ':' then FieldSpecs(s, begin, h, [AutoId])
    else
      match ArgIdAt(s, begin)
      case BadArgId => ([], None)
      case Index(id, end) => FieldAfterId(s, end, h, IndexId(id))
      case Name(name, end) => FieldAfterId(s, end, h, NameId(name))
  }

  function FieldAfterId(s: string, end: nat, h: SpecsEnd, id: Event): (r: (seq<Event>, Option<nat>))
    requires end <= |s| && StaysInside(h, s)
    ensures r.1.Some? ==> end < r.1.value <= |s|
    ensures r.0 != [] && r.0[0] == id
  {
    if end < |s| && s[end] == '}' then ([id, Replace(end)], Some(end + 1))
    else if end == |s| || s[end] != ':' then ([id], None)
    else FieldSpecs(s, end, h, [id])
  }

  function FieldSpecs(s: string, colon: nat, h: SpecsEnd, id: seq<Event>): (r: (seq<Event>, Option<nat>))
    requires colon < |s| && StaysInside(h, s)
    ensures r.1.Some? ==> colon < r.1.value <= |s|
    ensures id <= r.0
  {
    var stop := h(colon + 1);
    var events := id + [Specs(colon + 1, stop)];
    if stop == |s| || s[stop] != '}' then (events, None) else (events, Some(stop + 1))
  }

  // ----- What a field is -----

  /** The event for an argument id, given by its text. */
  function IdEvent(text: string): Event
  {
    if IsIdNumber(text) then IndexId(IdValue(text)) else NameId(text)
  }

  /** Format specs behind a colon, up to where the handler stops, closed there. */
  predicate ClosedSpecs(s: string, colon: nat, h: SpecsEnd, id: Event, events: seq<Event>, stop: nat)
    requires colon < |s| && StaysInside(h, s)
  {
    var e := h(colon + 1);
    e < |s| && s[e] == '}' && events == [id, Specs(colon + 1, e)] && stop == e + 1
  }

  /** A field whose id is the text up to end: closed there, or with specs. */
  predicate IdField(s: string, brace: nat, h: SpecsEnd, events: seq<Event>, stop: nat, end: nat)
    requires StaysInside(h, s)
  {
    && brace + 1 < end < |s|
    && var id := s[brace + 1..end];
    && (IsIdNumber(id) || IsName(id))
    && if s[end] == '}' then events == [IdEvent(id), Replace(end)] && stop == end + 1
       else s[end] == ':' && ClosedSpecs(s, end, h, IdEvent(id), events, stop)
  }

  /** "{}", "{{", "{:specs}", "{id}" or "{id:specs}". */
  ghost predicate IsField(s: string, brace: nat, h: SpecsEnd, events: seq<Event>, stop: nat)
    requires brace < |s| && StaysInside(h, s)
  {
    && brace + 1 < |s|
    && (|| (s[brace + 1] == '}' && events == [AutoId, Replace(brace + 1)] && stop == brace + 2)
        || (s[brace + 1] == '{' && events == [Text("{")] && stop == brace + 2)
        || (s[brace + 1] == ':' && ClosedSpecs(s, brace + 1, h, AutoId, events, stop))
        || exists end :: IdField(s, brace, h, events, stop, end))
  }

  lemma SpecsClosed(s: string, colon: nat, h: SpecsEnd, id: Event, events: seq<Event>, stop: nat)
    requires colon < |s| && StaysInside(h, s)
    ensures FieldSpecs(s, colon, h, [id]) == (events, Some(stop)) <==> ClosedSpecs(s, colon, h, id, events, stop)
  {
    var e := h(colon + 1);
    assert [id] + [Specs(colon + 1, e)] == [id, Specs(colon + 1, e)];
  }

  lemma IdFieldSound(s: string, brace: nat, h: SpecsEnd, events: seq<Event>, stop: nat)
    requires brace + 1 < |s| && StaysInside(h, s) && s[brace + 1] !in {'}', '{', ':'}
    requires FieldAt(s, brace, h) == (events, Some(stop))
    ensures exists end :: IdField(s, brace, h, events, stop, end)
  {
    hide IsIdNumber, IsName, IdValue, ArgIdAt, FieldSpecs, ClosedSpecs;
    var id := ArgIdAt(s, brace + 1);
    if id.Index? {
      NumberIdAccepted(s, brace + 1, id.id, id.end);
      SpecsClosed(s, id.end, h, IndexId(id.id), events, stop);
    } else {
      NameAccepted(s, brace + 1, id.name, id.end);
      NameIsNoNumber(id.name);
      if id.end < |s| {
        SpecsClosed(s, id.end, h, NameId(id.name), events, stop);
      }
    }
    assert IdField(s, brace, h, events, stop, id.end);
  }

  lemma IdFieldComplete(s: string, brace: nat, h: SpecsEnd, events: seq<Event>, stop: nat, end: nat)
    requires brace + 1 < |s| && StaysInside(h, s) && IdField(s, brace, h, events, stop, end)
    ensures FieldAt(s, brace, h) == (events, Some(stop)) && s[brace + 1] !in {'}', '{', ':'}
  {
    hide IsIdNumber, IsName, IdValue, ArgIdAt, FieldSpecs, ClosedSpecs;
    var id := s[brace + 1..end];
    assert id[0] == s[brace + 1];
    NameIsNoNumber(id);
    NoSpecialId(id);
    SpecsClosed(s, end, h, IdEvent(id), events, stop);
    if IsIdNumber(id) {
      NumberIdAccepted(s, brace + 1, IdValue(id), end);
    } else {
      EndsName(s[end]);
      NameAccepted(s, brace + 1, id, end);
    }
  }

  lemma NoSpecialId(id: string)
    requires IsIdNumber(id) || IsName(id)
    ensures id[0] !in {'}', '{', ':'}
  {
  }

  lemma EndsName(c: char)
    ensures c == '}' || c == ':' ==> !IsNameChar(c)
  {
  }

  /** A field is read without error exactly when it is one, and with exactly its events. */
  lemma FieldAccepted(s: string, brace: nat, h: SpecsEnd, events: seq<Event>, stop: nat)
    requires brace < |s| && StaysInside(h, s)
    ensures FieldAt(s, brace, h) == (events, Some(stop)) <==> IsField(s, brace, h, events, stop)
  {
    hide IdField, FieldSpecs, ClosedSpecs;
    if brace + 1 < |s| {
      if exists end :: IdField(s, brace, h, events, stop, end) {
        var end :| IdField(s, brace, h, events, stop, end);
        IdFieldComplete(s, brace, h, events, stop, end);
      } else if s[brace + 1] == ':' {
        SpecsClosed(s, brace + 1, h, AutoId, events, stop);
      } else if s[brace + 1] == '{' {
        assert s[brace + 1..brace + 2] == "{";
      } else if s[brace + 1] != '}' && FieldAt(s, brace, h) == (events, Some(stop)) {
        IdFieldSound(s, brace, h, events, stop);
      }
    }
  }

  /** The parse from position p on, with text pending since begin. */
  function ParseFrom(s: string, begin: nat, p: nat, h: SpecsEnd): Parsed
    requires begin <= p <= |s| && StaysInside(h, s)
    decreases |s| - p
  {
    if p == |s| then Parsed([Text(s[begin..])], true)
    else if s[p] == '{' then
      var field := FieldAt(s, p, h);
      var events := [Text(s[begin..p])] + field.0;
      if field.1.None? then Parsed(events, false) else Prepend(events, ParseFrom(s, field.1.value, field.1.value, h))
    else if s[p] == '}' then
      if p + 1 == |s| || s[p + 1] != '}' then Parsed([], false)
      else Prepend([Text(s[begin..p + 1])], ParseFrom(s, p + 2, p + 2, h))
    else ParseFrom(s, begin, p + 1, h)
  }

  function Prepend(events: seq<Event>, rest: Parsed): Parsed { Parsed(events + rest.events, rest.ok) }

  // ----- Doubled braces -----

  function Doubled(t: string): string
  {
    if t == [] then [] else (if t[0] == '{' || t[0] == '}' then [t[0], t[0]] else [t[0]]) + Doubled(t[1..])
  }

  predicate OnlyText(events: seq<Event>)
  {
    forall i :: 0 <= i < |events| ==> events[i].Text?
  }

  function Joined(events: seq<Event>): string
  {
    if events == [] then [] else (if events[0].Text? then events[0].s else []) + Joined(events[1..])
  }

  /** Parsing is literal: no error, no field, and the text pieces join to t. */
  ghost predicate ReadsAs(r: Parsed, t: string) { r.ok && OnlyText(r.events) && Joined(r.events) == t }

  lemma PrependText(piece: string, rest: Parsed)
    ensures var r := Prepend([Text(piece)], rest);
      && r.ok == rest.ok
      && (OnlyText(r.events) <==> OnlyText(rest.events))
      && Joined(r.events) == piece + Joined(rest.events)
  {
    var all := [Text(piece)] + rest.events;
    assert all[1..] == rest.events;
    assert forall i :: 0 <= i < |rest.events| ==> all[i + 1] == rest.events[i];
  }

  /** What one pass over a brace pair, or over an ordinary character, does to a literal parse. */
  lemma OpenStep(s: string, begin: nat, p: nat, h: SpecsEnd, t: string)
    requires begin <= p < |s| && s[p] == '{' && StaysInside(h, s) && p + 1 < |s| && s[p + 1] == '{'
    ensures ReadsAs(ParseFrom(s, begin, p, h), s[begin..p] + "{" + t) <==> ReadsAs(ParseFrom(s, p + 2, p + 2, h), t)
    ensures var r, rest := ParseFrom(s, begin, p, h), ParseFrom(s, p + 2, p + 2, h);
      r.ok == rest.ok && (OnlyText(r.events) <==> OnlyText(rest.events))
  {
    hide Joined, OnlyText;
    var rest, brace := ParseFrom(s, p + 2, p + 2, h), s[p + 1..p + 2];
    var inner := Prepend([Text(brace)], rest);
    PrependText(brace, rest);
    PrependText(s[begin..p], inner);
    PrependTwice(Text(s[begin..p]), Text(brace), rest);
    assert ParseFrom(s, begin, p, h) == Prepend([Text(s[begin..p])], inner);
    assert s[begin..p] + "{" + t == s[begin..p] + (brace + t);
    CancelPrefix(s[begin..p], brace, t, Joined(rest.events));
  }

  lemma PrependTwice(a: Event, b: Event, rest: Parsed)
    ensures Prepend([a], Prepend([b], rest)) == Prepend([a] + [b], rest)
  {
    assert [a] + ([b] + rest.events) == [a] + [b] + rest.events;
  }

  lemma CancelPrefix(a: string, b: string, x: string, y: string)
    ensures a + (b + x) == a + (b + y) <==> x == y
  {
    assert x == (a + (b + x))[|a| + |b|..] && y == (a + (b + y))[|a| + |b|..];
  }

  lemma CloseStep(s: string, begin: nat, p: nat, h: SpecsEnd, t: string)
    requires begin <= p < |s| && s[p] == '}' && StaysInside(h, s) && p + 1 < |s| && s[p + 1] == '}'
    ensures ReadsAs(ParseFrom(s, begin, p, h), s[begin..p] + "}" + t) <==> ReadsAs(ParseFrom(s, p + 2, p + 2, h), t)
    ensures var r, rest := ParseFrom(s, begin, p, h), ParseFrom(s, p + 2, p + 2, h);
      r.ok == rest.ok && (OnlyText(r.events) <==> OnlyText(rest.events))
  {
    hide Joined, OnlyText;
    var rest := ParseFrom(s, p + 2, p + 2, h);
    PrependText(s[begin..p + 1], rest);
    assert s[begin..p + 1] == s[begin..p] + "}";
    assert s[begin..p] + "}" + t == [] + (s[begin..p + 1] + t);
    CancelPrefix([], s[begin..p + 1], t, Joined(rest.events));
  }

  lemma EndStep(s: string, begin: nat, h: SpecsEnd)
    requires begin <= |s| && StaysInside(h, s)
    ensures ReadsAs(ParseFrom(s, begin, |s|, h), s[begin..])
  {
    assert [Text(s[begin..])][1..] == [];
  }

  lemma PlainStep(s: string, begin: nat, p: nat, h: SpecsEnd)
    requires begin <= p < |s| && s[p] != '{' && s[p] != '}' && StaysInside(h, s)
    ensures ParseFrom(s, begin, p, h) == ParseFrom(s, begin, p + 1, h)
  {
  }

  lemma {:induction false} DoubledParses(s: string, begin: nat, p: nat, h: SpecsEnd, t: string)
    requires begin <= p <= |s| && StaysInside(h, s) && s[p..] == Doubled(t)
    ensures ReadsAs(ParseFrom(s, begin, p, h), s[begin..p] + t)
    decreases |t|
  {
    hide ReadsAs, FieldAt, ParseFrom;
    if t == [] {
      EndStep(s, begin, h);
      assert s[begin..] == s[begin..p] + t;
    } else if t[0] == '{' || t[0] == '}' {
      assert s[p] == s[p..][0] && s[p + 1] == s[p..][1];
      assert s[p + 2..] == s[p..][2..] == Doubled(t[1..]);
      DoubledParses(s, p + 2, p + 2, h, t[1..]);
      assert s[p + 2..p + 2] + t[1..] == t[1..];
      if t[0] == '{' {
        OpenStep(s, begin, p, h, t[1..]);
        assert s[begin..p] + "{" + t[1..] == s[begin..p] + t;
      } else {
        CloseStep(s, begin, p, h, t[1..]);
        assert s[begin..p] + "}" + t[1..] == s[begin..p] + t;
      }
    } else {
      assert s[p] == s[p..][0] && s[p + 1..] == s[p..][1..] == Doubled(t[1..]);
      PlainStep(s, begin, p, h);
      DoubledParses(s, begin, p + 1, h, t[1..]);
      assert s[begin..p + 1] + t[1..] == s[begin..p] + t;
    }
  }

  lemma {:induction false} LiteralIsDoubled(s: string, begin: nat, p: nat, h: SpecsEnd) returns (t: string)
    requires begin <= p <= |s| && StaysInside(h, s)
    requires ParseFrom(s, begin, p, h).ok && OnlyText(ParseFrom(s, begin, p, h).events)
    ensures s[p..] == Doubled(t) && ReadsAs(ParseFrom(s, begin, p, h), s[begin..p] + t)
    decreases |s| - p
  {
    hide ReadsAs, FieldAt, OnlyText, Joined, ParseFrom;
    if p == |s| {
      t := [];
      EndStep(s, begin, h);
      assert s[begin..] == s[begin..p] + t;
    } else if s[p] == '{' || s[p] == '}' {
      OnlyDoubledBrace(s, begin, p, h);
      if s[p] == '{' {
        OpenStep(s, begin, p, h, []);
      } else {
        CloseStep(s, begin, p, h, []);
      }
      var t' := LiteralIsDoubled(s, p + 2, p + 2, h);
      t := [s[p]] + t';
      assert s[p..] == [s[p], s[p]] + s[p + 2..];
      assert s[p + 2..p + 2] + t' == t';
      if s[p] == '{' {
        OpenStep(s, begin, p, h, t');
        assert s[begin..p] + "{" + t' == s[begin..p] + t;
      } else {
        CloseStep(s, begin, p, h, t');
        assert s[begin..p] + "}" + t' == s[begin..p] + t;
      }
    } else {
      PlainStep(s, begin, p, h);
      var t' := LiteralIsDoubled(s, begin, p + 1, h);
      t := [s[p]] + t';
      assert s[p..] == [s[p]] + s[p + 1..];
      assert s[begin..p + 1] + t' == s[begin..p] + t;
    }
  }

  /** Only a doubled brace gets through with nothing but text. */
  lemma OnlyDoubledBrace(s: string, begin: nat, p: nat, h: SpecsEnd)
    requires begin <= p < |s| && (s[p] == '{' || s[p] == '}') && StaysInside(h, s)
    requires ParseFrom(s, begin, p, h).ok && OnlyText(ParseFrom(s, begin, p, h).events)
    ensures p + 1 < |s| && s[p + 1] == s[p]
  {
    if s[p] == '{' {
      var field, r := FieldAt(s, p, h), ParseFrom(s, begin, p, h);
      assert field.1.Some?;
      assert field.0 != [] ==> r.events[1] == field.0[0];
    }
  }

  /** A format string is parsed without error and without replacement fields exactly when it is a
      text with every brace doubled, and the pieces emitted then join to that text. */
  lemma PlainIffDoubled(s: string, h: SpecsEnd)
    requires StaysInside(h, s)
    ensures var r := ParseFrom(s, 0, 0, h);
      r.ok && OnlyText(r.events) <==> exists t :: s == Doubled(t)
    ensures forall t :: s == Doubled(t) ==> ReadsAs(ParseFrom(s, 0, 0, h), t)
  {
    hide ParseFrom, OnlyText, Joined;
    var r := ParseFrom(s, 0, 0, h);
    if r.ok && OnlyText(r.events) {
      var t := LiteralIsDoubled(s, 0, 0, h);
      assert s == Doubled(t);
    }
    forall t | s == Doubled(t) ensures ReadsAs(r, t) {
      DoubledParses(s, 0, 0, h, t);
      assert s[0..0] + t == t;
    }
  }

  // ----- Texts and fields -----

  /** A format string is made of literal texts and of replacement fields. A field knows its events and
      the position behind it. */
  datatype Piece = Literal(t: string) | Field(events: seq<Event>, stop: nat)

  /** From p on the string is written from these pieces: literal texts with every brace doubled, and
      fields each of which is one at its place. */
  ghost predicate WrittenFrom(s: string, p: nat, pieces: seq<Piece>, h: SpecsEnd)
    requires StaysInside(h, s)
    decreases |pieces|
  {
    if pieces == [] then p == |s|
    else
      match pieces[0]
      case Literal(t) =>
        var q := p + |Doubled(t)|;
        q <= |s| && s[p..q] == Doubled(t) && WrittenFrom(s, q, pieces[1..], h)
      case Field(events, stop) =>
        p + 1 < |s| && s[p] == '{' && s[p + 1] != '{' && IsField(s, p, h, events, stop)
        && WrittenFrom(s, stop, pieces[1..], h)
  }

  /** Output as characters of text, and events that are not text. */
  datatype Item = Ch(c: char) | Ev(e: Event)

  function Chars(t: string): seq<Item>
  {
    if t == [] then [] else [Ch(t[0])] + Chars(t[1..])
  }

  /** A list of events with its texts taken apart, so that how a text is cut into events is forgotten. */
  function Items(events: seq<Event>): seq<Item>
  {
    if events == [] then []
    else (if events[0].Text? then Chars(events[0].s) else [Ev(events[0])]) + Items(events[1..])
  }

  /** What the pieces stand for: their literal texts, and the events of their fields, in order. */
  function Expected(pieces: seq<Piece>): seq<Item>
  {
    if pieces == [] then []
    else (match pieces[0] case Literal(t) => Chars(t) case Field(events, stop) => Items(events)) + Expected(pieces[1..])
  }

  lemma {:induction false} CharsConcat(a: string, b: string)
    ensures Chars(a + b) == Chars(a) + Chars(b)
  {
    if a == [] {
      assert a + b == b;
    } else {
      assert (a + b)[1..] == a[1..] + b;
      CharsConcat(a[1..], b);
    }
  }

  lemma {:induction false} ItemsConcat(a: seq<Event>, b: seq<Event>)
    ensures Items(a + b) == Items(a) + Items(b)
  {
    if a == [] {
      assert a + b == b;
    } else {
      assert (a + b)[1..] == a[1..] + b;
      ItemsConcat(a[1..], b);
    }
  }

  lemma ItemsOfText(t: string)
    ensures Items([Text(t)]) == Chars(t)
  {
    assert [Text(t)][1..] == [];
  }

  /** What one pass emits: the pending text, then what it is given. */
  lemma PassItems(pending: string, events: seq<Event>, rest: Parsed)
    ensures Items(Prepend([Text(pending)] + events, rest).events) == Chars(pending) + Items(events) + Items(rest.events)
  {
    hide Items, Chars;
    ItemsConcat([Text(pending)] + events, rest.events);
    ItemsConcat([Text(pending)], events);
    ItemsOfText(pending);
  }

  /** The parse is good and stands for these items. */
  ghost predicate Yields(r: Parsed, items: seq<Item>) { r.ok && Items(r.events) == items }

  lemma EndYields(s: string, begin: nat, h: SpecsEnd)
    requires begin <= |s| && StaysInside(h, s)
    ensures Yields(ParseFrom(s, begin, |s|, h), Chars(s[begin..]))
  {
    ItemsOfText(s[begin..]);
  }

  lemma PlainYields(s: string, begin: nat, p: nat, h: SpecsEnd, items: seq<Item>)
    requires begin <= p < |s| && s[p] != '{' && s[p] != '}' && StaysInside(h, s)
    requires Yields(ParseFrom(s, begin, p + 1, h), Chars(s[begin..p + 1]) + items)
    ensures Yields(ParseFrom(s, begin, p, h), Chars(s[begin..p]) + ([Ch(s[p])] + items))
  {
    hide Items, FieldAt;
    assert s[begin..p + 1] == s[begin..p] + [s[p]];
    CharsConcat(s[begin..p], [s[p]]);
    OneChar(s[p]);
    assert Chars(s[begin..p]) + [Ch(s[p])] + items == Chars(s[begin..p]) + ([Ch(s[p])] + items);
  }

  lemma OneChar(c: char)
    ensures Chars([c]) == [Ch(c)]
  {
    assert [c][1..] == [];
  }

  lemma OpenYields(s: string, begin: nat, p: nat, h: SpecsEnd, items: seq<Item>)
    requires begin <= p && p + 1 < |s| && s[p] == '{' && s[p + 1] == '{' && StaysInside(h, s)
    requires Yields(ParseFrom(s, p + 2, p + 2, h), items)
    ensures Yields(ParseFrom(s, begin, p, h), Chars(s[begin..p]) + ([Ch('{')] + items))
  {
    hide Items, Chars;
    var brace := s[p + 1..p + 2];
    assert brace == ['{'];
    PassItems(s[begin..p], [Text(brace)], ParseFrom(s, p + 2, p + 2, h));
    ItemsOfText(brace);
    OneChar('{');
    assert Chars(s[begin..p]) + [Ch('{')] + items == Chars(s[begin..p]) + ([Ch('{')] + items);
  }

  lemma CloseYields(s: string, begin: nat, p: nat, h: SpecsEnd, items: seq<Item>)
    requires begin <= p && p + 1 < |s| && s[p] == '}' && s[p + 1] == '}' && StaysInside(h, s)
    requires Yields(ParseFrom(s, p + 2, p + 2, h), items)
    ensures Yields(ParseFrom(s, begin, p, h), Chars(s[begin..p]) + ([Ch('}')] + items))
  {
    hide Items, Chars, FieldAt;
    var rest := ParseFrom(s, p + 2, p + 2, h);
    assert s[begin..p + 1] == s[begin..p] + ['}'];
    CharsConcat(s[begin..p], ['}']);
    OneChar('}');
    ItemsConcat([Text(s[begin..p + 1])], rest.events);
    ItemsOfText(s[begin..p + 1]);
    assert Chars(s[begin..p]) + [Ch('}')] + items == Chars(s[begin..p]) + ([Ch('}')] + items);
  }

  lemma FieldYields(s: string, begin: nat, p: nat, h: SpecsEnd, events: seq<Event>, stop: nat, items: seq<Item>)
    requires begin <= p < |s| && s[p] == '{' && StaysInside(h, s) && IsField(s, p, h, events, stop)
    requires stop <= |s| ==> Yields(ParseFrom(s, stop, stop, h), items)
    ensures stop <= |s| && Yields(ParseFrom(s, begin, p, h), Chars(s[begin..p]) + (Items(events) + items))
  {
    hide Items, Chars, FieldAt, IsField;
    FieldAccepted(s, p, h, events, stop);
    PassItems(s[begin..p], events, ParseFrom(s, stop, stop, h));
    assert Chars(s[begin..p]) + Items(events) + items == Chars(s[begin..p]) + (Items(events) + items);
  }

  /** A literal text with one character less in front. */
  lemma LiteralTail(s: string, p: nat, t: string, rest: seq<Piece>, h: SpecsEnd)
    requires StaysInside(h, s) && t != [] && WrittenFrom(s, p, [Literal(t)] + rest, h)
    ensures var n := if t[0] == '{' || t[0] == '}' then 2 else 1;
      && p + n <= |s| && s[p] == t[0] && (n == 2 ==> s[p + 1] == t[0])
      && WrittenFrom(s, p + n, [Literal(t[1..])] + rest, h)
    ensures Expected([Literal(t)] + rest) == [Ch(t[0])] + Expected([Literal(t[1..])] + rest)
  {
    hide IsField;
    var n := if t[0] == '{' || t[0] == '}' then 2 else 1;
    var q, d := p + |Doubled(t)|, Doubled(t);
    assert ([Literal(t)] + rest)[1..] == rest && ([Literal(t[1..])] + rest)[1..] == rest;
    assert d[n..] == Doubled(t[1..]);
    assert s[p] == s[p..q][0] && (n == 2 ==> s[p + 1] == s[p..q][1]);
    assert s[p + n..q] == s[p..q][n..];
    assert [Ch(t[0])] + Chars(t[1..]) + Expected(rest) == [Ch(t[0])] + (Chars(t[1..]) + Expected(rest));
  }

  lemma FieldEnds(s: string, p: nat, h: SpecsEnd, events: seq<Event>, stop: nat)
    requires p < |s| && StaysInside(h, s) && IsField(s, p, h, events, stop)
    ensures p < stop <= |s|
  {
    hide IsField, FieldAt;
    FieldAccepted(s, p, h, events, stop);
  }

  lemma NothingPending(s: string, p: nat, items: seq<Item>)
    requires p <= |s|
    ensures Chars(s[p..p]) + items == items
  {
  }

  lemma EmptyLiteral(s: string, p: nat, pieces: seq<Piece>, h: SpecsEnd)
    requires StaysInside(h, s) && pieces != [] && pieces[0] == Literal([]) && WrittenFrom(s, p, pieces, h)
    ensures WrittenFrom(s, p, pieces[1..], h) && Expected(pieces) == Expected(pieces[1..])
  {
    hide IsField;
  }

  /** Written pieces are parsed without error into what they stand for, behind any pending text. */
  lemma {:induction false} WrittenYields(s: string, begin: nat, p: nat, pieces: seq<Piece>, h: SpecsEnd)
    requires begin <= p <= |s| && StaysInside(h, s) && WrittenFrom(s, p, pieces, h)
    ensures Yields(ParseFrom(s, begin, p, h), Chars(s[begin..p]) + Expected(pieces))
    decreases |s| - p, |pieces|
  {
    hide Items, ParseFrom, Yields, IsField, Chars, Doubled;
    if pieces == [] {
      EndYields(s, begin, h);
      assert s[begin..] == s[begin..p];
      assert Chars(s[begin..p]) + Expected(pieces) == Chars(s[begin..p]);
    } else if pieces[0].Field? {
      var f := pieces[0];
      FieldEnds(s, p, h, f.events, f.stop);
      WrittenYields(s, f.stop, f.stop, pieces[1..], h);
      NothingPending(s, f.stop, Expected(pieces[1..]));
      FieldYields(s, begin, p, h, f.events, f.stop, Expected(pieces[1..]));
    } else if pieces[0].t == [] {
      EmptyLiteral(s, p, pieces, h);
      WrittenYields(s, begin, p, pieces[1..], h);
    } else {
      var t, rest := pieces[0].t, pieces[1..];
      var pieces' := [Literal(t[1..])] + rest;
      assert pieces == [Literal(t)] + rest;
      LiteralTail(s, p, t, rest, h);
      if t[0] == '{' || t[0] == '}' {
        WrittenYields(s, p + 2, p + 2, pieces', h);
        NothingPending(s, p + 2, Expected(pieces'));
        if t[0] == '{' {
          OpenYields(s, begin, p, h, Expected(pieces'));
        } else {
          CloseYields(s, begin, p, h, Expected(pieces'));
        }
      } else {
        WrittenYields(s, begin, p + 1, pieces', h);
        PlainYields(s, begin, p, h, Expected(pieces'));
      }
    }
  }

  lemma OneMoreLiteral(s: string, p: nat, t: string, rest: seq<Piece>, h: SpecsEnd)
    requires StaysInside(h, s) && p + |Doubled(t)| <= |s| && s[p..p + |Doubled(t)|] == Doubled(t)
    requires WrittenFrom(s, p + |Doubled(t)|, rest, h)
    ensures WrittenFrom(s, p, [Literal(t)] + rest, h)
  {
    hide IsField, Doubled;
    assert ([Literal(t)] + rest)[1..] == rest;
  }

  lemma OneMoreField(s: string, p: nat, events: seq<Event>, stop: nat, rest: seq<Piece>, h: SpecsEnd)
    requires StaysInside(h, s) && p + 1 < |s| && s[p] == '{' && s[p + 1] != '{' && IsField(s, p, h, events, stop)
    requires WrittenFrom(s, stop, rest, h)
    ensures WrittenFrom(s, p, [Field(events, stop)] + rest, h)
  {
    hide IsField, Doubled;
    assert ([Field(events, stop)] + rest)[1..] == rest;
  }

  lemma DoubledChar(c: char)
    ensures Doubled([c]) == if c == '{' || c == '}' then [c, c] else [c]
  {
    assert [c][1..] == [];
  }

  /** Whatever is parsed without error is written from some pieces. */
  lemma {:induction false} ParsedIsWritten(s: string, begin: nat, p: nat, h: SpecsEnd) returns (pieces: seq<Piece>)
    requires begin <= p <= |s| && StaysInside(h, s) && ParseFrom(s, begin, p, h).ok
    ensures WrittenFrom(s, p, pieces, h)
    decreases |s| - p
  {
    hide FieldAt, WrittenFrom, IsField, Doubled;
    pieces := [];
    if p == |s| {
      NoPieces(s, h);
    } else if s[p] == '{' {
      var field := FieldAt(s, p, h);
      FieldAccepted(s, p, h, field.0, field.1.value);
      FieldHasMore(s, p, h);
      pieces := ParsedIsWritten(s, field.1.value, field.1.value, h);
      if s[p + 1] == '{' {
        DoubledChar('{');
        assert s[p..p + 2] == Doubled(['{']);
        OneMoreLiteral(s, p, ['{'], pieces, h);
        pieces := [Literal(['{'])] + pieces;
      } else {
        OneMoreField(s, p, field.0, field.1.value, pieces, h);
        pieces := [Field(field.0, field.1.value)] + pieces;
      }
    } else {
      var n := if s[p] == '}' then 2 else 1;
      pieces := ParsedIsWritten(s, if n == 2 then p + 2 else begin, p + n, h);
      DoubledChar(s[p]);
      assert s[p..p + n] == Doubled([s[p]]);
      OneMoreLiteral(s, p, [s[p]], pieces, h);
      pieces := [Literal([s[p]])] + pieces;
    }
  }

  lemma NoPieces(s: string, h: SpecsEnd)
    requires StaysInside(h, s)
    ensures WrittenFrom(s, |s|, [], h)
  {
  }

  lemma FieldHasMore(s: string, brace: nat, h: SpecsEnd)
    requires brace < |s| && StaysInside(h, s) && FieldAt(s, brace, h).1.Some?
    ensures brace + 1 < |s|
    ensures s[brace + 1] == '{' ==> FieldAt(s, brace, h).1 == Some(brace + 2)
  {
  }

  /** A format string is parsed without error exactly when it is written from literal texts and fields, and
      then its events are, text by text and event by event, those texts and the events of those fields. */
  lemma ParsedIffWritten(s: string, h: SpecsEnd)
    requires StaysInside(h, s)
    ensures ParseFrom(s, 0, 0, h).ok <==> exists pieces :: WrittenFrom(s, 0, pieces, h)
    ensures forall pieces :: WrittenFrom(s, 0, pieces, h) ==> Items(ParseFrom(s, 0, 0, h).events) == Expected(pieces)
  {
    hide ParseFrom, WrittenFrom, Items, Expected, Chars;
    if ParseFrom(s, 0, 0, h).ok {
      var pieces := ParsedIsWritten(s, 0, 0, h);
      assert WrittenFrom(s, 0, pieces, h);
    }
    forall pieces | WrittenFrom(s, 0, pieces, h)
      ensures ParseFrom(s, 0, 0, h).ok && Items(ParseFrom(s, 0, 0, h).events) == Expected(pieces)
    {
      WrittenYields(s, 0, 0, pieces, h);
      NothingPending(s, 0, Expected(pieces));
    }
  }

  lemma PrependJoins(a: seq<Event>, b: seq<Event>, rest: Parsed)
    ensures Prepend(a, Prepend(b, rest)) == Prepend(a + b, rest) && Prepend([], rest) == rest
  {
    assert a + (b + rest.events) == a + b + rest.events;
  }

  /** The three kinds of pass. */
  lemma Pass(s: string, begin: nat, p: nat, h: SpecsEnd)
    requires begin <= p < |s| && StaysInside(h, s)
    ensures s[p] == '{' ==>
      var field := FieldAt(s, p, h); var events := [Text(s[begin..p])] + field.0;
      ParseFrom(s, begin, p, h) == if field.1.None? then Parsed(events, false)
                                   else Prepend(events, ParseFrom(s, field.1.value, field.1.value, h))
    ensures s[p] == '}' ==>
      ParseFrom(s, begin, p, h) == if p + 1 == |s| || s[p + 1] != '}' then Parsed([], false)
                                   else Prepend([Text(s[begin..p + 1])], ParseFrom(s, p + 2, p + 2, h))
    ensures s[p] != '{' && s[p] != '}' ==> ParseFrom(s, begin, p, h) == ParseFrom(s, begin, p + 1, h)
  {
    hide FieldAt;
  }

  lemma PassAtEnd(s: string, begin: nat, h: SpecsEnd)
    requires begin <= |s| && StaysInside(h, s)
    ensures ParseFrom(s, begin, |s|, h) == Parsed([Text(s[begin..])], true)
  {
  }

  /** The loop of the source; it ends on every string. */
  method ParseFormatString(s: string, h: SpecsEnd) returns (r: Parsed)
    requires StaysInside(h, s)
    ensures r == ParseFrom(s, 0, 0, h)
    ensures r.ok <==> exists pieces :: WrittenFrom(s, 0, pieces, h)
    ensures forall pieces :: WrittenFrom(s, 0, pieces, h) ==> Items(r.events) == Expected(pieces)
  {
    hide ParseFrom, Prepend, FieldAt, WrittenFrom, Items, Expected, IsField;
    ParsedIffWritten(s, h);
    var events: seq<Event> := [];
    var begin, p := 0, 0;
    PrependJoins([], [], ParseFrom(s, 0, 0, h));
    while p != |s|
      invariant 0 <= begin <= p <= |s|
      invariant ParseFrom(s, 0, 0, h) == Prepend(events, ParseFrom(s, begin, p, h))
      decreases |s| - p
    {
      Pass(s, begin, p, h);
      var c := s[p];
      p := p + 1;
      if c == '{' {
        var field := FieldAt(s, p - 1, h);
        var emitted := [Text(s[begin..p - 1])] + field.0;
        if field.1.None? {
          return Prepend(events, Parsed(emitted, false));
        }
        PrependJoins(events, emitted, ParseFrom(s, field.1.value, field.1.value, h));
        events := events + emitted;
        p := field.1.value;
        begin := p;
      } else if c == '}' {
        if p == |s| || s[p] != '}' {
          return Prepend(events, Parsed([], false));
        }
        PrependJoins(events, [Text(s[begin..p])], ParseFrom(s, p + 1, p + 1, h));
        events := events + [Text(s[begin..p])];
        p := p + 1;
        begin := p;
      }
    }
    PassAtEnd(s, begin, h);
    return Prepend(events, Parsed([Text(s[begin..])], true));
  }
}
