/**
 Code points of one type as ranges that never cross a 64K plane, packed into a two-level
 table: an index with one entry per plane, then the ranges as offset and length.
 */
module CodeRanges {
  import opened Powers
  import opened Words

  const MAX_CODE: nat := 0x110000
  const PLANE: nat := 0x1_0000

  datatype UtfType = Normal | DoubleWidth | Special | IllFormed

  datatype Range = Range(from: Word32, to: Word32)

  /** How the source reads the quoted form s of a code. */
  function TypeFromText(code: nat, s: string): UtfType
    requires s != []
  {
    if code < 0x20 || "\"\\u" <= s then Special
    else if "\"\\x" <= s then IllFormed
    else if code >= 0x100 && s[|s| - 1] != ' ' then DoubleWidth
    else Normal
  }

  /** The quoting function; it returns at least the quotes. */
  type Quoter = f: nat -> string | forall c :: f(c) != [] witness ((c: nat) => "\"")

  function TypeOf(fn: Quoter, code: nat): UtfType { TypeFromText(code, fn(code)) }

  // ----- What a vector of ranges denotes -----

  ghost predicate InRange(r: Range, c: int) { r.from <= c <= r.to }

  ghost predicate Denotes(v: seq<Range>, c: int)
  {
    exists i :: 0 <= i < |v| && InRange(v[i], c)
  }

  predicate OnePlane(r: Range) { r.from <= r.to && r.from / PLANE == r.to / PLANE }

  /** Sorted, disjoint, not empty, never across a plane, all below bound. */
  ghost predicate Ordered(v: seq<Range>, bound: int)
  {
    && (forall i :: 0 <= i < |v| ==> OnePlane(v[i]) && v[i].to < bound)
    && (forall i, j :: 0 <= i < j < |v| ==> v[i].to < v[j].from)
  }

  // ----- Splitting a run of codes at the planes -----

  function PlaneEnd(h: nat): Word32
    requires h < PLANE
  {
    Pow2At16();
    OrDisjoint(h, 16, 0xffff);
    BitOr(h * PLANE, 0xffff)
  }

  lemma Pow2At16()
    ensures Pow(2, 16) == PLANE
  {
    assert Pow(2, 8) == 0x100;
    PowAdd(2, 8, 8);
  }

  lemma PlaneEndIs(h: nat)
    requires h < PLANE
    ensures PlaneEnd(h) == h * PLANE + 0xffff
  {
    Pow2At16();
    OrDisjoint(h, 16, 0xffff);
  }

  /** The split of first..last is one piece for each plane it meets. */
  ghost predicate Split(pieces: seq<Range>, first: int, last: int)
  {
    && Ordered(pieces, last + 1)
    && (forall i :: 0 <= i < |pieces| ==> first <= pieces[i].from)
    && (forall c :: Denotes(pieces, c) <==> first <= c <= last)
  }

  method EmitRun(v: seq<Range>, first: Word32, last: Word32) returns (v': seq<Range>)
    requires first <= last
    ensures v <= v' && Split(v'[|v|..], first, last)
  {
    hide PlaneEnd;
    var h1, h2 := first / PLANE, last / PLANE;
    ghost var pieces: seq<Range>;
    if h1 == h2 {
      pieces := [Range(first, last)];
      assert forall c :: InRange(pieces[0], c) <==> first <= c <= last;
      v' := v + [Range(first, last)];
    } else {
      PlaneEndIs(h1);
      v' := v + [Range(first, PlaneEnd(h1))];
      pieces := [Range(first, PlaneEnd(h1))];
      assert forall c :: InRange(pieces[0], c) <==> first <= c <= PlaneEnd(h1);
      var h := h1 + 1;
      while h < h2
        invariant h1 < h <= h2
        invariant v' == v + pieces && Split(pieces, first, h * PLANE - 1)
      {
        PlaneEndIs(h);
        SplitExtends(pieces, first, h * PLANE, h * PLANE + 0xffff);
        v' := v' + [Range(h * PLANE, PlaneEnd(h))];
        pieces := pieces + [Range(h * PLANE, PlaneEnd(h))];
        h := h + 1;
      }
      SplitExtends(pieces, first, h2 * PLANE, last);
      v' := v' + [Range(h2 * PLANE, last)];
      pieces := pieces + [Range(h2 * PLANE, last)];
    }
    assert v'[|v|..] == pieces;
  }

  lemma DenotesConcat(v: seq<Range>, w: seq<Range>, c: int)
    ensures Denotes(v + w, c) <==> Denotes(v, c) || Denotes(w, c)
  {
    if Denotes(v, c) {
      var i :| 0 <= i < |v| && InRange(v[i], c);
      assert InRange((v + w)[i], c);
    }
    if Denotes(w, c) {
      var i :| 0 <= i < |w| && InRange(w[i], c);
      assert InRange((v + w)[|v| + i], c);
    }
  }

  lemma SplitExtends(pieces: seq<Range>, first: int, mid: Word32, last: Word32)
    requires first <= mid <= last && Split(pieces, first, mid - 1) && OnePlane(Range(mid, last))
    ensures Split(pieces + [Range(mid, last)], first, last)
  {
    var r := Range(mid, last);
    forall c ensures Denotes(pieces + [r], c) <==> first <= c <= last {
      DenotesConcat(pieces, [r], c);
      assert Denotes([r], c) <==> InRange([r][0], c);
    }
  }

  // ----- Classification -----

  /** The ranges found are exactly the codes of the target type below bound. */
  ghost predicate Classified(fn: Quoter, tgt: UtfType, v: seq<Range>, bound: int)
  {
    && Ordered(v, bound)
    && (forall c: nat :: Denotes(v, c) <==> c < bound && TypeOf(fn, c) == tgt)
  }

  /** One finished run of equal types extends what is classified. */
  lemma RunFinished(fn: Quoter, tgt: UtfType, last: UtfType, v: seq<Range>, first: nat, end: nat, pieces: seq<Range>)
    requires Classified(fn, tgt, v, first) && first <= end
    requires forall c :: first <= c < end ==> TypeOf(fn, c) == last
    requires if last == tgt && first < end then Split(pieces, first, end - 1) else pieces == []
    ensures Classified(fn, tgt, v + pieces, end)
  {
    forall c: nat ensures Denotes(v + pieces, c) <==> c < end && TypeOf(fn, c) == tgt {
      DenotesConcat(v, pieces, c);
      if pieces == [] {
        assert !Denotes(pieces, c);
      }
    }
  }

  /** Code zero is a control character, so an empty first run is only ever finished for tgt == Normal. */
  lemma FirstIsSpecial(fn: Quoter)
    ensures TypeOf(fn, 0) == Special
  {
  }

  /** What the scan knows when the current run starts at first. For the type normal the first
      change of type already emits a range that starts with code zero. */
  ghost predicate Scanned(fn: Quoter, tgt: UtfType, v: seq<Range>, first: int, begun: bool)
  {
    && (tgt != Normal ==> Classified(fn, tgt, v, first))
    && (tgt == Normal && begun ==> Denotes(v, 0))
  }

  lemma ScanStep(fn: Quoter, tgt: UtfType, last: UtfType, v: seq<Range>, first: Word32, code: nat, pieces: seq<Range>)
    requires Scanned(fn, tgt, v, first, code != 0) && first <= code
    requires forall c :: first <= c < code ==> TypeOf(fn, c) == last
    requires code == 0 ==> last == Normal
    requires code != 0 ==> first < code
    requires if last == tgt then Split(pieces, first, if code == 0 then R32 - 1 else code - 1) else pieces == []
    ensures Scanned(fn, tgt, v + pieces, code, true)
  {
    DenotesConcat(v, pieces, 0);
    if tgt != Normal {
      RunFinished(fn, tgt, last, v, first, code, pieces);
    }
  }

  method ClassifyUtf(fn: Quoter, tgt: UtfType) returns (v: seq<Range>)
    ensures tgt != Normal ==> Classified(fn, tgt, v, MAX_CODE)
    ensures tgt == Normal ==> Denotes(v, 0) && TypeOf(fn, 0) != tgt
  {
    hide Classified, Denotes, Split, TypeOf, Scanned;
    v := [];
    var lastType := Normal;
    var codeFirst: Word32 := 0;
    NothingScanned(fn, tgt);
    FirstIsSpecial(fn);
    for code := 0 to MAX_CODE
      invariant 0 <= codeFirst <= code
      invariant code == 0 ==> lastType == Normal
      invariant code != 0 ==> codeFirst < code
      invariant forall c :: codeFirst <= c < code ==> TypeOf(fn, c) == lastType
      invariant Scanned(fn, tgt, v, codeFirst, code != 0)
    {
      var currType := TypeOf(fn, code);
      if currType != lastType {
        ghost var before, pieces := v, [];
        if lastType == tgt {
          var codeLast: Word32 := (code + R32 - 1) % R32;
          v := EmitRun(v, codeFirst, codeLast);
          pieces := v[|before|..];
        }
        ScanStep(fn, tgt, lastType, before, codeFirst, code, pieces);
        assert before + pieces == v;
        lastType := currType;
        codeFirst := code;
      }
    }
    ghost var before, pieces := v, [];
    if lastType == tgt {
      v := EmitRun(v, codeFirst, MAX_CODE - 1);
      pieces := v[|before|..];
    }
    ScanStep(fn, tgt, lastType, before, codeFirst, MAX_CODE, pieces);
    assert before + pieces == v;
    ScanComplete(fn, tgt, v);
  }

  lemma NothingScanned(fn: Quoter, tgt: UtfType)
    ensures Scanned(fn, tgt, [], 0, false)
  {
    assert forall c: nat :: !Denotes([], c);
  }

  lemma ScanComplete(fn: Quoter, tgt: UtfType, v: seq<Range>)
    requires Scanned(fn, tgt, v, MAX_CODE, true)
    ensures tgt != Normal ==> Classified(fn, tgt, v, MAX_CODE)
    ensures tgt == Normal ==> Denotes(v, 0)
  {
  }

  // ----- Packing -----

  /** Low half: position in the plane; high half: length minus one. The shift drops what does not fit. */
  function PackRange(r: Range): Word32
  {
    var length := ((r.to - r.from) % R32 * PLANE) % R32;
    OrWithin(r);
    BitOr(length, r.from % PLANE)
  }

  lemma OrWithin(r: Range)
    ensures BitOr(((r.to - r.from) % R32 * PLANE) % R32, r.from % PLANE)
            == ((r.to - r.from) % R32 * PLANE) % R32 + r.from % PLANE < R32
  {
    Pow2At16();
    var d := (r.to - r.from) % R32;
    assert (d * PLANE) % R32 == (d % PLANE) * PLANE;
    OrDisjoint(d % PLANE, 16, r.from % PLANE);
  }

  lemma PackedParts(r: Range)
    requires OnePlane(r)
    ensures PackRange(r) % PLANE == r.from % PLANE && PackRange(r) / PLANE == r.to - r.from
  {
    hide BitOr;
    OrWithin(r);
    var d := r.to - r.from;
    assert d < PLANE;
    assert PackRange(r) == d * PLANE + r.from % PLANE;
    DivModUnique(PackRange(r), PLANE, d, r.from % PLANE);
  }

  /** idx[h] separates the ranges below plane h from the others. */
  ghost predicate Separates(v: seq<Range>, h: int, k: int)
  {
    && 0 <= k <= |v|
    && (forall i :: 0 <= i < k ==> v[i].from / PLANE < h)
    && (forall i :: k <= i < |v| ==> h <= v[i].from / PLANE)
  }

  ghost predicate SortedByPlane(v: seq<Range>)
  {
    && (forall i :: 0 <= i < |v| ==> v[i].from / PLANE <= 0x10)
    && (forall i, j :: 0 <= i <= j < |v| ==> v[i].from / PLANE <= v[j].from / PLANE)
  }

  ghost predicate Indexed(v: seq<Range>, idx: seq<nat>, planes: nat)
  {
    |idx| == planes && forall h :: 0 <= h < planes ==> Separates(v, h, idx[h])
  }

  /** The plane the counter runs up to before range i is stored, or at the end. */
  function TargetPlane(v: seq<Range>, i: nat): Word32
    requires i <= |v|
  {
    if i < |v| then v[i].from / PLANE else 0x11
  }

  /** The wrapping counter starts one before zero and has pushed one entry per plane it passed. */
  ghost predicate Indexing(v: seq<Range>, idx: seq<nat>, hLast: Word32, i: nat)
    requires i <= |v|
  {
    SortedByPlane(v) ==>
      && (hLast == R32 - 1 || hLast <= TargetPlane(v, i))
      && (i > 0 ==> hLast != R32 - 1 && v[i - 1].from / PLANE <= hLast)
      && Indexed(v, idx, (hLast + 1) % R32)
  }

  lemma PushIndex(v: seq<Range>, idx: seq<nat>, hLast: Word32, i: nat)
    requires i <= |v| && Indexing(v, idx, hLast, i) && hLast != TargetPlane(v, i)
    ensures Indexing(v, idx + [i], (hLast + 1) % R32, i)
  {
    if SortedByPlane(v) {
      assert Separates(v, (hLast + 1) % R32, i);
    }
  }

  lemma IndexingAdvances(v: seq<Range>, idx: seq<nat>, i: nat)
    requires i < |v| && Indexing(v, idx, TargetPlane(v, i), i)
    ensures Indexing(v, idx, TargetPlane(v, i), i + 1)
  {
  }

  lemma CountdownStep(hLast: Word32, h: Word32)
    requires hLast != h
    ensures 0 <= (h - (hLast + 1) % R32) % R32 < (h - hLast) % R32
  {
    if h < hLast {
      DivModUnique(h - hLast, R32, -1, h - hLast + R32);
    }
  }

  /** Both loops end whatever the ranges are; for ranges sorted by plane the index is right. */
  method PackRanges(v: seq<Range>) returns (idx: seq<nat>, compressed: seq<Word32>)
    ensures |compressed| == |v| && forall i :: 0 <= i < |v| ==> compressed[i] == PackRange(v[i])
    ensures SortedByPlane(v) ==> Indexed(v, idx, 0x12)
  {
    hide PackRange, Indexing, SortedByPlane, Indexed;
    idx, compressed := [], [];
    var hLast: Word32 := R32 - 1;
    IndexingStarts(v);
    for i := 0 to |v|
      invariant |compressed| == i && forall k :: 0 <= k < i ==> compressed[k] == PackRange(v[k])
      invariant Indexing(v, idx, hLast, i)
    {
      var h := v[i].from / PLANE;
      while hLast != h
        invariant Indexing(v, idx, hLast, i)
        decreases (h - hLast) % R32
      {
        CountdownStep(hLast, h);
        PushIndex(v, idx, hLast, i);
        idx := idx + [|compressed|];
        hLast := (hLast + 1) % R32;
      }
      IndexingAdvances(v, idx, i);
      compressed := compressed + [PackRange(v[i])];
    }
    while hLast != 0x11
      invariant Indexing(v, idx, hLast, |v|)
      decreases (0x11 - hLast) % R32
    {
      CountdownStep(hLast, 0x11);
      PushIndex(v, idx, hLast, |v|);
      idx := idx + [|compressed|];
      hLast := (hLast + 1) % R32;
    }
    IndexingEnds(v, idx);
  }

  lemma IndexingStarts(v: seq<Range>)
    ensures Indexing(v, [], R32 - 1, 0)
  {
  }

  lemma IndexingEnds(v: seq<Range>, idx: seq<nat>)
    requires Indexing(v, idx, 0x11, |v|)
    ensures SortedByPlane(v) ==> Indexed(v, idx, 0x12)
  {
  }

  // ----- The emitted table -----

  /** The numbers written out: index entries counted from the start of the table, then the ranges. */
  function Emitted(idx: seq<nat>, compressed: seq<Word32>): (table: seq<nat>)
    ensures |table| == |idx| + |compressed|
  {
    seq(|idx|, i requires 0 <= i < |idx| => (idx[i] + |idx|) % R32) + compressed
  }

  /** One packed range covers the position of a code in its plane. */
  predicate Covers(packed: nat, code: nat)
  {
    packed % PLANE <= code % PLANE <= packed % PLANE + packed / PLANE
  }

  ghost predicate Lookup(table: seq<nat>, code: nat)
    requires |table| > 0x11 && code < MAX_CODE
  {
    var h := code / PLANE;
    exists k :: table[h] <= k < table[h + 1] && k < |table| && Covers(table[k], code)
  }

  lemma OrderedIsSmall(v: seq<Range>, bound: nat, i: nat)
    requires Ordered(v, bound) && i < |v|
    ensures i <= v[i].from < bound
  {
    if i != 0 {
      OrderedIsSmall(v, bound, i - 1);
    }
  }

  lemma PlanesOf(v: seq<Range>)
    requires Ordered(v, MAX_CODE)
    ensures SortedByPlane(v) && |v| <= MAX_CODE
  {
    if |v| > 0 {
      OrderedIsSmall(v, MAX_CODE, |v| - 1);
    }
  }

  lemma CoversIsInRange(r: Range, code: nat)
    requires OnePlane(r) && code / PLANE == r.from / PLANE
    ensures Covers(PackRange(r), code) <==> InRange(r, code)
  {
    hide PackRange;
    PackedParts(r);
  }

  /** The entries of the emitted table between two index values are the ranges of that plane. */
  lemma EmittedPlane(v: seq<Range>, idx: seq<nat>, compressed: seq<Word32>, h: nat)
    requires Ordered(v, MAX_CODE) && Indexed(v, idx, 0x12) && h < 0x11 && |compressed| == |v|
    ensures var table := Emitted(idx, compressed);
      && table[h] == idx[h] + 0x12 && table[h + 1] == idx[h + 1] + 0x12
      && forall i :: 0 <= i < |v| ==> table[i + 0x12] == compressed[i]
    ensures forall i :: 0 <= i < |v| ==> (idx[h] <= i < idx[h + 1] <==> v[i].from / PLANE == h)
    ensures idx[h + 1] <= |v|
  {
    PlanesOf(v);
    assert Separates(v, h, idx[h]) && Separates(v, h + 1, idx[h + 1]);
  }

  /** Reading the table for a code finds exactly the ranges that contain it. */
  lemma LookupIsDenotes(v: seq<Range>, idx: seq<nat>, compressed: seq<Word32>, code: nat)
    requires Ordered(v, MAX_CODE) && Indexed(v, idx, 0x12) && code < MAX_CODE
    requires |compressed| == |v| && forall i :: 0 <= i < |v| ==> compressed[i] == PackRange(v[i])
    ensures Lookup(Emitted(idx, compressed), code) <==> Denotes(v, code)
  {
    hide PackRange, Covers, Indexed, Emitted;
    IndexCount(v, idx);
    var table, h := Emitted(idx, compressed), code / PLANE;
    EmittedPlane(v, idx, compressed, h);
    if Denotes(v, code) {
      var i :| 0 <= i < |v| && InRange(v[i], code);
      CoversIsInRange(v[i], code);
      assert Covers(table[i + 0x12], code);
    }
    if Lookup(table, code) {
      var k :| table[h] <= k < table[h + 1] && k < |table| && Covers(table[k], code);
      CoversIsInRange(v[k - 0x12], code);
    }
  }

  lemma FirstIndex(v: seq<Range>, k: int)
    requires Separates(v, 0, k)
    ensures k == 0
  {
    if 0 < k {
      PlaneNotNegative(v, 0);
    }
  }

  lemma PlaneNotNegative(v: seq<Range>, i: nat)
    requires i < |v|
    ensures 0 <= v[i].from / PLANE
  {
  }

  lemma IndexCount(v: seq<Range>, idx: seq<nat>)
    requires Indexed(v, idx, 0x12)
    ensures |idx| == 0x12
  {
  }

  /** The whole program for one type: looking a code up answers whether it has that type. */
  method BuildTable(fn: Quoter, tgt: UtfType) returns (table: seq<nat>)
    ensures tgt != Normal ==> |table| > 0x11 && table[0] == 0x12
    ensures tgt != Normal ==> forall code: nat :: code < MAX_CODE ==> (Lookup(table, code) <==> TypeOf(fn, code) == tgt)
  {
    hide Lookup, TypeOf, PackRange, Denotes;
    var v := ClassifyUtf(fn, tgt);
    var idx, compressed := PackRanges(v);
    table := Emitted(idx, compressed);
    if tgt != Normal {
      PlanesOf(v);
      FirstIndex(v, idx[0]);
      forall code: nat | code < MAX_CODE ensures Lookup(table, code) <==> TypeOf(fn, code) == tgt {
        LookupIsDenotes(v, idx, compressed, code);
      }
    }
  }

  /** One packed number of the table covers a code: it lies in the part of the table that the index gives for
      the plane of the code, its low half is a position not behind the code, and its high half reaches it. */
  ghost predicate Covered(table: seq<nat>, code: nat)
  {
    code / 0x1_0000 + 1 < |table| &&
    exists k: nat :: table[code / 0x1_0000] <= k < table[code / 0x1_0000 + 1] && k < |table|
                     && table[k] % 0x1_0000 <= code % 0x1_0000 <= table[k] % 0x1_0000 + table[k] / 0x1_0000
  }

  lemma CoveredIsLookup(table: seq<nat>, code: nat)
    requires |table| > 0x11 && code < 0x11_0000
    ensures Covered(table, code) <==> Lookup(table, code)
  {
    if Lookup(table, code) {
      var k :| table[code / PLANE] <= k < table[code / PLANE + 1] && k < |table| && Covers(table[k], code);
    }
  }

  /** The conditions of the classification, on the quoted form of a code. */
  lemma TypesAre(fn: Quoter, code: nat)
    ensures TypeOf(fn, code) == Special <==> code < 0x20 || "\"\\u" <= fn(code)
    ensures TypeOf(fn, code) == DoubleWidth
            <==> code >= 0x100 && fn(code)[|fn(code)| - 1] != ' ' && !("\"\\u" <= fn(code)) && !("\"\\x" <= fn(code))
  {
  }

  /** The two tables of the program: which codes each covers, told from the quoted form of the code. */
  method BuildProgramTables(fn: Quoter) returns (special: seq<nat>, wide: seq<nat>)
    ensures forall code: nat :: code < 0x11_0000 ==>
              (Covered(special, code) <==> code < 0x20 || "\"\\u" <= fn(code))
    ensures forall code: nat :: code < 0x11_0000 ==>
              (Covered(wide, code) <==> code >= 0x100 && fn(code)[|fn(code)| - 1] != ' '
                                        && !("\"\\u" <= fn(code)) && !("\"\\x" <= fn(code)))
  {
    hide Covered, Lookup, TypeOf;
    special := BuildTable(fn, Special);
    wide := BuildTable(fn, DoubleWidth);
    forall code: nat | code < 0x11_0000
      ensures Covered(special, code) <==> code < 0x20 || "\"\\u" <= fn(code)
      ensures Covered(wide, code) <==> code >= 0x100 && fn(code)[|fn(code)| - 1] != ' '
                                       && !("\"\\u" <= fn(code)) && !("\"\\x" <= fn(code))
    {
      CoveredIsLookup(special, code);
      CoveredIsLookup(wide, code);
      TypesAre(fn, code);
    }
  }
}
