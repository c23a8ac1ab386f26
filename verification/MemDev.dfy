/** The in-memory test device, word-aligned storage with a cursor, against an abstract file. */
module MemDev {
  import opened Powers
  import opened Words

  type Byte = x: int | 0 <= x < 0x100

  datatype Option<T> = None | Some(value: T)

  datatype SeekDir = Beg | Curr | End

  function Max(a: nat, b: nat): nat { if a < b then b else a }

  function Min(a: nat, b: nat): nat { if a < b then a else b }

  function Zeros(n: nat): seq<Byte> { seq(n, _ => 0) }

  // ----- The abstract file -----

  datatype File = File(bytes: seq<Byte>, pos: nat)

  ghost predicate InFile(f: File) { f.pos <= |f.bytes| }

  function ReadCount(f: File, sz: nat): nat
    requires InFile(f)
  {
    Min(sz, |f.bytes| - f.pos)
  }

  ghost function AfterRead(f: File, sz: nat): File
    requires InFile(f)
  {
    f.(pos := f.pos + ReadCount(f, sz))
  }

  ghost function ReadBytes(f: File, sz: nat): seq<Byte>
    requires InFile(f)
  {
    f.bytes[f.pos..f.pos + ReadCount(f, sz)]
  }

  /** Overwrites from the cursor on; what lies behind the written bytes stays. */
  ghost function AfterWrite(f: File, s: seq<Byte>): File
    requires InFile(f)
  {
    var end := f.pos + |s|;
    File(f.bytes[..f.pos] + s + f.bytes[Min(end, |f.bytes|)..], end)
  }

  function SeekTarget(pos: nat, top: nat, off: int, dir: SeekDir): Option<nat>
  {
    match dir
    case Beg => if off >= 0 then Some(off) else None
    case Curr => if off >= 0 || -off <= pos then Some((pos + off % R64) % R64) else None
    case End => if off >= 0 || -off <= top then Some((top + off % R64) % R64) else None
  }

  /** A cursor beyond the end fills the hole with zeros; a seek before the start is refused. */
  ghost function AfterSeek(f: File, off: int, dir: SeekDir): Option<File>
  {
    match SeekTarget(f.pos, |f.bytes|, off, dir)
    case None => None
    case Some(to) => Some(File(f.bytes + Zeros(Max(|f.bytes|, to) - |f.bytes|), to))
  }

  /** Below 2^64 the wrapping arithmetic of seek is plain addition. */
  lemma SeekIsAddition(pos: nat, top: nat, off: int, dir: SeekDir)
    requires pos < R64 && top < R64 && pos + off < R64 && top + off < R64
    ensures var base := if dir == Beg then 0 else if dir == Curr then pos else top;
      SeekTarget(pos, top, off, dir) == if base + off >= 0 then Some(base + off) else None
  {
    SumWraps(pos, off);
    SumWraps(top, off);
  }

  lemma SeekForward(pos: nat, top: nat, n: nat)
    requires pos + n < R64
    ensures SeekTarget(pos, top, n, Curr) == Some(pos + n)
  {
    SumWraps(pos, n);
  }

  lemma SumWraps(a: nat, off: int)
    ensures 0 <= a + off < R64 ==> (a + off % R64) % R64 == a + off
  {
  }

  // ----- The device -----

  class Device {
    // Bytes per word of the storage.
    const word: nat
    var data: seq<Byte>
    var pos: nat
    var top: nat

    ghost predicate Shape()
      reads this
    {
      0 < word && |data| % word == 0 && pos <= top <= |data|
    }

    /** The storage behind the end of the file is zero. */
    ghost predicate Clean()
      reads this
      requires Shape()
    {
      data[top..] == Zeros(|data| - top)
    }

    ghost predicate Valid()
      reads this
    {
      Shape() && Clean()
    }

    ghost function Abs(): (f: File)
      requires Shape()
      reads this
      ensures InFile(f)
    {
      File(data[..top], pos)
    }

    constructor (w: nat)
      requires 0 < w
      ensures Valid() && word == w && Abs() == File([], 0)
    {
      word, data, pos, top := w, [], 0, 0;
    }

    /** The copy takes whole words up to the end of the file and starts at its beginning. */
    constructor Copy(other: Device)
      requires other.Shape()
      ensures Shape() && word == other.word && Abs() == File(other.Abs().bytes, 0)
      ensures other.Clean() ==> Clean()
    {
      WordsCover(other.top, |other.data|, other.word);
      word := other.word;
      data := other.data[..WordCount(other.top, other.word) * other.word];
      top := other.top;
      pos := 0;
      new;
      assert data[..top] == other.data[..top];
      assert data[top..] == other.data[top..][..|data| - top];
    }

    method Resize(words: nat)
      requires 0 < word
      modifies `data
      ensures |data| == words * word
      ensures data == if |data| <= |old(data)| then old(data)[..|data|] else old(data) + Zeros(|data| - |old(data)|)
    {
      var n := words * word;
      data := if n <= |data| then data[..n] else data + Zeros(n - |data|);
    }

    method Read(sz: nat) returns (out: seq<Byte>)
      requires Shape()
      modifies `pos
      ensures Shape() && (old(Clean()) ==> Clean())
      ensures Abs() == AfterRead(old(Abs()), sz) && out == ReadBytes(old(Abs()), sz)
    {
      var n := Min(sz, top - pos);
      out := data[pos..pos + n];
      pos := pos + n;
    }

    method Write(s: seq<Byte>)
      requires Shape()
      modifies this
      ensures Shape() && (old(Clean()) ==> Clean())
      ensures Abs() == AfterWrite(old(Abs()), s)
    {
      if pos + |s| > top {
        WordsCover(pos + |s|, 0, word);
        Resize(WordCount(pos + |s|, word));
        Resized(old(data), data, top);
      }
      StoredBytes(data, old(data)[..top], pos, s);
      data := data[..pos] + s + data[pos + |s|..];
      pos := pos + |s|;
      top := Max(top, pos);
    }

    /** The window handed out, as a position in the storage and a size. */
    method Map(wr: bool) returns (at: nat, sz: nat)
      requires Shape()
      modifies `data
      ensures Shape() && (old(Clean()) ==> Clean())
      ensures Abs() == old(Abs()) && at == pos
      ensures wr ==> 0 < sz && at + sz == |data|
      ensures old(data) <= data && (pos < |old(data)| ==> data == old(data))
      ensures !wr ==> at + sz == top && data == old(data)
    {
      if wr {
        if |data| == pos {
          WordsDivide(|data|, word);
          Resize(Max(8, 3 * (|data| / word) / 2));
        }
        sz := |data| - pos;
      } else {
        sz := top - pos;
      }
      at := pos;
    }

    /** Storage only grows, by zeros, to whole words that cover the cursor. */
    method Seek(off: int, dir: SeekDir) returns (r: Option<nat>)
      requires Shape()
      modifies this
      ensures Shape() && r == old(SeekTarget(pos, top, off, dir))
      ensures r.None? ==> data == old(data) && pos == old(pos) && top == old(top)
      ensures r.Some? ==> pos == r.value && top == Max(old(top), pos)
      ensures |old(data)| <= |data| && data == old(data) + Zeros(|data| - |old(data)|)
      ensures top <= |old(data)| ==> data == old(data)
      ensures old(Clean()) ==> Clean()
      ensures old(Clean()) ==> if r.None? then AfterSeek(old(Abs()), off, dir) == None && Abs() == old(Abs())
                               else AfterSeek(old(Abs()), off, dir) == Some(Abs())
    {
      r := SeekTarget(pos, top, off, dir);
      if r.None? {
        return;
      }
      pos := r.value;
      top := Max(top, pos);
      if top > |data| {
        WordsCover(top, 0, word);
        Resize(WordCount(top, word));
      }
      Extended(old(data), data, old(top), top);
    }

    /** Filling the front of a writable window and seeking over it is a write. */
    method WriteThroughMap(s: seq<Byte>) returns (ok: bool)
      requires Shape() && pos + |s| < R64
      modifies this
      ensures Shape() && (old(Clean()) ==> Clean())
      ensures Abs() == if ok then AfterWrite(old(Abs()), s) else old(Abs())
      ensures |s| <= 1 ==> ok
    {
      hide AfterWrite, AfterSeek, SeekTarget;
      var at, sz := Map(true);
      if |s| > sz {
        return false;
      }
      StoredBytes(data, data[..top], pos, s);
      data := data[..at] + s + data[at + |s|..];
      SeekForward(pos, top, |s|);
      var r := Seek(|s|, Curr);
      ok := true;
    }
  }

  /** Growing by zeros and moving the end: the file behind, when the slack was zero. */
  lemma Extended(before: seq<Byte>, after: seq<Byte>, top: nat, top': nat)
    requires top <= |before| <= |after| && top <= top' <= |after| && after == before + Zeros(|after| - |before|)
    ensures before[top..] == Zeros(|before| - top)
            ==> after[top'..] == Zeros(|after| - top') && after[..top'] == before[..top] + Zeros(top' - top)
  {
    assert after[top..] == before[top..] + Zeros(|after| - |before|);
    if before[top..] == Zeros(|before| - top) {
      assert after[top..] == Zeros(|after| - top);
      assert after[top'..] == after[top..][top' - top..];
      assert after[..top'] == after[..top] + after[top..][..top' - top];
    }
  }

  /** Resizing above the end of the file keeps the file, and zeroed slack stays zero. */
  lemma Resized(before: seq<Byte>, after: seq<Byte>, top: nat)
    requires top <= |before| && top <= |after|
    requires after == if |after| <= |before| then before[..|after|] else before + Zeros(|after| - |before|)
    ensures after[..top] == before[..top]
    ensures before[top..] == Zeros(|before| - top) ==> after[top..] == Zeros(|after| - top)
  {
    if |after| <= |before| {
      assert after[top..] == before[top..][..|after| - top];
    } else {
      assert after[top..] == before[top..] + Zeros(|after| - |before|);
    }
  }

  /** Storing bytes over the slack: the file behind, and zeroed slack stays zero. */
  lemma StoredBytes(grown: seq<Byte>, bytes: seq<Byte>, pos: nat, s: seq<Byte>)
    requires pos <= |bytes| <= |grown| && pos + |s| <= |grown|
    requires grown[..|bytes|] == bytes
    ensures var stored, top := grown[..pos] + s + grown[pos + |s|..], Max(|bytes|, pos + |s|);
      && |stored| == |grown|
      && AfterWrite(File(bytes, pos), s) == File(stored[..top], pos + |s|)
      && (grown[|bytes|..] == Zeros(|grown| - |bytes|) ==> stored[top..] == Zeros(|grown| - top))
  {
    var stored, top := grown[..pos] + s + grown[pos + |s|..], Max(|bytes|, pos + |s|);
    assert stored[top..] == grown[top..] == grown[|bytes|..][top - |bytes|..];
    assert grown[..pos] == bytes[..pos];
    if pos + |s| <= |bytes| {
      assert grown[pos + |s|..|bytes|] == bytes[pos + |s|..];
    }
  }

  function WordCount(sz: nat, word: nat): nat
    requires 0 < word
  {
    (sz + word - 1) / word
  }

  /** Rounding up to words covers the bytes and stays below any whole number of words that does. */
  lemma WordsCover(sz: nat, bytes: nat, word: nat)
    requires 0 < word && bytes % word == 0
    ensures sz <= WordCount(sz, word) * word < sz + word
    ensures (WordCount(sz, word) * word) % word == 0
    ensures sz <= bytes ==> WordCount(sz, word) * word <= bytes
  {
    var n, r, b := WordCount(sz, word), (sz + word - 1) % word, bytes / word;
    assert sz + word - 1 == word * n + r;
    assert bytes == word * b;
    DivModUnique(n * word, word, n, 0);
    if b < n {
      MulMonotone(word, b + 1, n);
    } else {
      MulMonotone(word, n, b);
    }
  }

  lemma WordsDivide(bytes: nat, word: nat)
    requires 0 < word && bytes % word == 0
    ensures var n := Max(8, 3 * (bytes / word) / 2);
      bytes < n * word && (n * word) % word == 0
  {
    var b, n := bytes / word, Max(8, 3 * (bytes / word) / 2);
    assert bytes == word * b;
    MulMonotone(word, b + 1, n);
    DivModUnique(n * word, word, n, 0);
  }

  // ----- Whole runs -----

  datatype Op = DoRead(sz: nat) | DoWrite(s: seq<Byte>) | DoMap(wr: bool) | DoSeek(off: int, dir: SeekDir)

  ghost function Step(f: File, op: Op): (g: File)
    requires InFile(f)
    ensures InFile(g) && |f.bytes| <= |g.bytes|
  {
    match op
    case DoRead(sz) => AfterRead(f, sz)
    case DoWrite(s) => AfterWrite(f, s)
    case DoMap(wr) => f
    case DoSeek(off, dir) => if AfterSeek(f, off, dir).Some? then AfterSeek(f, off, dir).value else f
  }

  ghost function Output(f: File, op: Op): seq<Byte>
    requires InFile(f)
  {
    if op.DoRead? then ReadBytes(f, op.sz) else []
  }

  ghost function Run(f: File, ops: seq<Op>): (r: (File, seq<Byte>))
    requires InFile(f)
    ensures InFile(r.0)
  {
    if ops == [] then (f, [])
    else
      var before := Run(f, ops[..|ops| - 1]);
      (Step(before.0, ops[|ops| - 1]), before.1 + Output(before.0, ops[|ops| - 1]))
  }

  /** Every run of the device returns the bytes the abstract file returns. */
  method Perform(dev: Device, ops: seq<Op>) returns (out: seq<Byte>)
    requires dev.Valid()
    modifies dev
    ensures dev.Valid() && Run(old(dev.Abs()), ops) == (dev.Abs(), out)
  {
    hide Run, AfterRead, AfterWrite, AfterSeek, ReadBytes;
    out := [];
    RunStarts(dev.Abs(), ops);
    for k := 0 to |ops|
      invariant dev.Valid() && Run(old(dev.Abs()), ops[..k]) == (dev.Abs(), out)
    {
      RunOneMore(old(dev.Abs()), ops, k);
      match ops[k] {
        case DoRead(sz) =>
          var bytes := dev.Read(sz);
          out := out + bytes;
        case DoWrite(s) =>
          dev.Write(s);
          assert out + [] == out;
        case DoMap(wr) =>
          var at, sz := dev.Map(wr);
          assert out + [] == out;
        case DoSeek(off, dir) =>
          var r := dev.Seek(off, dir);
          assert out + [] == out;
      }
    }
    assert ops[..|ops|] == ops;
  }

  lemma RunStarts(f: File, ops: seq<Op>)
    requires InFile(f)
    ensures Run(f, ops[..0]) == (f, [])
  {
  }

  lemma RunOneMore(f: File, ops: seq<Op>, k: nat)
    requires InFile(f) && k < |ops|
    ensures var before := Run(f, ops[..k]);
      Run(f, ops[..k + 1]) == (Step(before.0, ops[k]), before.1 + Output(before.0, ops[k]))
  {
    assert ops[..k + 1][..k] == ops[..k];
  }

  /** Some write of the run covers position i. */
  ghost predicate Overwritten(f: File, ops: seq<Op>, i: nat)
    requires InFile(f)
  {
    ops != [] &&
    var init, last := ops[..|ops| - 1], ops[|ops| - 1];
    var g := Run(f, init).0;
    Overwritten(f, init, i) || (last.DoWrite? && g.pos <= i < g.pos + |last.s|)
  }

  /** A byte stays what it was, over any run, unless a write covers it. */
  lemma {:induction false} BytesStay(f: File, ops: seq<Op>, i: nat)
    requires InFile(f) && i < |f.bytes| && !Overwritten(f, ops, i)
    ensures i < |Run(f, ops).0.bytes| && Run(f, ops).0.bytes[i] == f.bytes[i]
  {
    if ops != [] {
      BytesStay(f, ops[..|ops| - 1], i);
    }
  }

  /** What was written is read back after seeking to where it was written. */
  lemma ReadBack(f: File, s: seq<Byte>)
    requires InFile(f)
    ensures var g := AfterWrite(f, s);
      AfterSeek(g, f.pos, Beg).Some? && ReadBytes(AfterSeek(g, f.pos, Beg).value, |s|) == s
  {
    assert AfterWrite(f, s).bytes[f.pos..f.pos + |s|] == s;
  }

  // ----- Laws of the abstract file -----

  /** Two reads in a row are one read of both lengths. */
  lemma ReadsJoin(f: File, m: nat, n: nat)
    requires InFile(f)
    ensures ReadBytes(f, m) + ReadBytes(AfterRead(f, m), n) == ReadBytes(f, m + n)
    ensures AfterRead(AfterRead(f, m), n) == AfterRead(f, m + n)
  {
  }

  /** A read gets what it asks for, or everything from the cursor on, and leaves the cursor behind it. */
  lemma ReadGets(f: File, n: nat)
    requires InFile(f)
    ensures n <= |f.bytes| - f.pos ==> ReadBytes(f, n) == f.bytes[f.pos..f.pos + n] && AfterRead(f, n) == File(f.bytes, f.pos + n)
    ensures n >= |f.bytes| - f.pos ==> ReadBytes(f, n) == f.bytes[f.pos..] && AfterRead(f, n) == File(f.bytes, |f.bytes|)
  {
  }

  /** Two writes in a row are one write of both texts; a write of nothing does nothing. */
  lemma WritesJoin(f: File, a: seq<Byte>, b: seq<Byte>)
    requires InFile(f)
    ensures AfterWrite(AfterWrite(f, a), b) == AfterWrite(f, a + b)
    ensures AfterWrite(f, []) == f
  {
  }

  /** Where a write begins and ends, and every byte of the file behind it. */
  lemma WritePuts(f: File, s: seq<Byte>, i: nat)
    requires InFile(f)
    ensures var g := AfterWrite(f, s);
      && g.pos == f.pos + |s|
      && |g.bytes| == (if f.pos + |s| <= |f.bytes| then |f.bytes| else f.pos + |s|)
      && (i < |g.bytes| ==> g.bytes[i] == if f.pos <= i < f.pos + |s| then s[i - f.pos] else f.bytes[i])
  {
  }

  /** A seek goes to the target; bytes before the old end stay, those up to the target are zero. */
  lemma SeekFills(f: File, off: int, dir: SeekDir, i: nat)
    requires InFile(f) && AfterSeek(f, off, dir).Some?
    ensures var g := AfterSeek(f, off, dir).value;
      && SeekTarget(f.pos, |f.bytes|, off, dir) == Some(g.pos)
      && |g.bytes| == (if g.pos <= |f.bytes| then |f.bytes| else g.pos)
      && (i < |g.bytes| ==> g.bytes[i] == if i < |f.bytes| then f.bytes[i] else 0)
  {
  }

  // ----- Laws of runs -----

  lemma {:induction false} RunAppend(f: File, a: seq<Op>, b: seq<Op>)
    requires InFile(f)
    ensures var first := Run(f, a); var second := Run(first.0, b);
      Run(f, a + b) == (second.0, first.1 + second.1)
    decreases b
  {
    hide AfterRead, AfterWrite, AfterSeek, ReadBytes, Step, Output;
    if b == [] {
      assert a + b == a;
      assert Run(f, a).1 + [] == Run(f, a).1;
    } else {
      var init := b[..|b| - 1];
      assert (a + b)[..|a + b| - 1] == a + init;
      RunAppend(f, a, init);
      var first := Run(f, a);
      var second := Run(first.0, init);
      var out := Output(second.0, b[|b| - 1]);
      assert first.1 + second.1 + out == first.1 + (second.1 + out);
    }
  }

  function Sum(sizes: seq<nat>): nat { if sizes == [] then 0 else Sum(sizes[..|sizes| - 1]) + sizes[|sizes| - 1] }

  function Joined(chunks: seq<seq<Byte>>): seq<Byte>
  {
    if chunks == [] then [] else Joined(chunks[..|chunks| - 1]) + chunks[|chunks| - 1]
  }

  function Reads(sizes: seq<nat>): (ops: seq<Op>)
    ensures |ops| == |sizes|
  {
    seq(|sizes|, i requires 0 <= i < |sizes| => DoRead(sizes[i]))
  }

  function Writes(chunks: seq<seq<Byte>>): (ops: seq<Op>)
    ensures |ops| == |chunks|
  {
    seq(|chunks|, i requires 0 <= i < |chunks| => DoWrite(chunks[i]))
  }

  /** Reading piece by piece, in any sizes, returns the bytes of one read. */
  lemma {:induction false} ReadsInPieces(f: File, sizes: seq<nat>)
    requires InFile(f)
    ensures Run(f, Reads(sizes)) == (AfterRead(f, Sum(sizes)), ReadBytes(f, Sum(sizes)))
    decreases sizes
  {
    hide AfterRead, ReadBytes;
    if sizes == [] {
      ReadGets(f, 0);
    } else {
      var init, last := sizes[..|sizes| - 1], sizes[|sizes| - 1];
      assert Reads(sizes)[..|sizes| - 1] == Reads(init);
      ReadsInPieces(f, init);
      ReadsJoin(f, Sum(init), last);
    }
  }

  /** Writing piece by piece is one write. */
  lemma {:induction false} WritesInPieces(f: File, chunks: seq<seq<Byte>>)
    requires InFile(f)
    ensures Run(f, Writes(chunks)) == (AfterWrite(f, Joined(chunks)), [])
    decreases chunks
  {
    hide AfterWrite;
    if chunks == [] {
      WritesJoin(f, [], []);
    } else {
      var init, last := chunks[..|chunks| - 1], chunks[|chunks| - 1];
      WritesInPieces(f, init);
      WritesJoin(f, Joined(init), last);
      RunOneWrite(f, Writes(init), last);
      assert Writes(init) + [DoWrite(last)] == Writes(chunks);
    }
  }

  lemma RunOneWrite(f: File, ops: seq<Op>, s: seq<Byte>)
    requires InFile(f)
    ensures var before := Run(f, ops);
      Run(f, ops + [DoWrite(s)]) == (AfterWrite(before.0, s), before.1)
  {
    hide AfterWrite;
    assert (ops + [DoWrite(s)])[..|ops|] == ops;
    assert Run(f, ops).1 + [] == Run(f, ops).1;
  }

  /** Whatever is written to a new file in pieces of any sizes comes back, after a seek to the start, from
      reads of any sizes that together ask for enough. */
  lemma WrittenComesBack(chunks: seq<seq<Byte>>, sizes: seq<nat>)
    requires |Joined(chunks)| <= Sum(sizes)
    ensures Run(File([], 0), Writes(chunks) + [DoSeek(0, Beg)] + Reads(sizes)).1 == Joined(chunks)
  {
    hide Run, Joined, Sum, Reads, Writes, AfterRead, AfterWrite, AfterSeek, ReadBytes;
    var empty, all := File([], 0), Joined(chunks);
    var written := AfterWrite(empty, all);
    WritesInPieces(empty, chunks);
    WriteToEmpty(all);
    RunAppend(empty, Writes(chunks), [DoSeek(0, Beg)]);
    BackToStart(written);
    RunAppend(empty, Writes(chunks) + [DoSeek(0, Beg)], Reads(sizes));
    ReadsInPieces(File(all, 0), sizes);
    ReadGets(File(all, 0), Sum(sizes));
    assert all[0..] == all && [] + [] + all == all;
  }

  lemma WriteToEmpty(s: seq<Byte>)
    ensures AfterWrite(File([], 0), s) == File(s, |s|)
  {
  }

  lemma BackToStart(f: File)
    requires InFile(f)
    ensures Run(f, [DoSeek(0, Beg)]) == (File(f.bytes, 0), [])
  {
    var op := DoSeek(0, Beg);
    assert [op][..0] == [];
    assert f.bytes + Zeros(0) == f.bytes;
    assert Step(f, op) == File(f.bytes, 0);
    assert Run(f, [op]).1 == [] + Output(f, op) == [];
  }
}
