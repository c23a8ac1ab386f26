/**
 The output buffer behind format_to_n for a plain pointer: it writes straight into the
 caller's memory while there is room, then into scratch space that is thrown away, and
 keeps counting.
 */
module FixedBuffer {

  const BUFFER_SIZE: nat := 256

  function Min(a: nat, b: nat): nat { if a < b then a else b }

  method CopyChars(to: array<char>, at: nat, s: seq<char>)
    requires at + |s| <= to.Length
    modifies to
    ensures forall k :: 0 <= k < |s| ==> to[at + k] == s[k]
    ensures forall k :: 0 <= k < to.Length && !(at <= k < at + |s|) ==> to[k] == old(to[k])
  {
    for i := 0 to |s|
      invariant forall k :: 0 <= k < i ==> to[at + k] == s[k]
      invariant forall k :: 0 <= k < to.Length && !(at <= k < at + i) ==> to[k] == old(to[k])
    {
      to[at + i] := s[i];
    }
  }

  class Buffer {
    // The caller's memory and where the output starts in it.
    const mem: array<char>
    const start: nat
    const limit: nat
    const scratch: array<char>

    // The pointer, size and capacity of the buffer; ptr and off are one pointer.
    var ptr: array<char>
    var off: nat
    var size: nat
    var capacity: nat

    // The output pointer, as a position in mem, and the count of flushed characters.
    var outPos: nat
    var flushed: nat

    // Everything written so far, truncated or not.
    ghost var total: seq<char>

    ghost predicate Direct()
      reads this
    {
      ptr == mem
    }

    ghost predicate Valid()
      reads this, mem, scratch
    {
      && scratch.Length == BUFFER_SIZE && mem != scratch && start + limit <= mem.Length
      && start <= outPos <= start + limit && outPos - start <= |total|
      && flushed + size == |total| && size <= capacity
      && if Direct() then
           && off == start == outPos && capacity == limit && flushed == 0
           && mem[start..start + size] == total
         else
           && ptr == scratch && off == 0 && capacity == BUFFER_SIZE
           && outPos - start <= flushed
           && mem[start..outPos] == total[..outPos - start]
    }

    /** Nothing that belongs into the caller's memory has gone to the scratch space. */
    ghost predicate Exact()
      reads this
    {
      Direct() || outPos == start + limit
    }

    constructor (out: array<char>, pos: nat, n: nat)
      requires pos + n <= out.Length
      ensures Valid() && Exact() && total == []
      ensures mem == out && start == pos && limit == n && fresh(scratch)
    {
      mem, start, limit := out, pos, n;
      scratch := new char[BUFFER_SIZE];
      ptr, off, size, capacity := out, pos, 0, n;
      outPos, flushed := pos, 0;
      total := [];
    }

    /** fixed_buffer_traits::limit: the truncated count grows by the characters that fit, the full count by all. */
    method Limit(n: nat) returns (fit: nat)
      modifies `flushed
      ensures Min(limit, flushed) == Min(limit, old(flushed)) + fit
      ensures flushed == old(flushed) + n
    {
      var room := if limit > flushed then limit - flushed else 0;
      flushed := flushed + n;
      fit := Min(n, room);
    }

    method Flush()
      requires Valid()
      modifies this
      ensures Valid() && total == old(total) && size == 0 && !Direct()
      ensures outPos == if old(Direct()) then start + old(size) else old(outPos)
      ensures flushed == |total|
    {
      var n := Limit(size);
      if ptr == mem && off == outPos {
        outPos := outPos + n;
        ptr, off, capacity := scratch, 0, BUFFER_SIZE;
      }
      size := 0;
    }

    /** The growth callback only flushes, and only a full buffer. */
    method TryReserve(newCapacity: nat)
      requires Valid() && Exact() && size < newCapacity
      modifies this
      ensures Valid() && Exact() && total == old(total)
      ensures size < capacity
    {
      if newCapacity > capacity {
        if size == capacity {
          Flush();
        }
      }
    }

    /** Positions of the caller's memory that output of this length can reach. */
    ghost predicate Reached(i: int, length: nat)
    {
      start <= i < start + Min(limit, length)
    }

    method PushBack(value: char)
      requires Valid() && Exact()
      modifies this, mem, scratch
      ensures Valid() && Exact() && total == old(total) + [value]
      ensures forall i :: 0 <= i < mem.Length && !Reached(i, |total|) ==> mem[i] == old(mem[i])
    {
      TryReserve(size + 1);
      ptr[off + size] := value;
      size := size + 1;
      total := total + [value];
    }

    /** Each pass of the outer loop stores at least one character. */
    method Append(s: seq<char>)
      requires Valid() && Exact()
      modifies this, mem, scratch
      ensures Valid() && Exact() && total == old(total) + s
      ensures forall i :: 0 <= i < mem.Length && !Reached(i, |total|) ==> mem[i] == old(mem[i])
    {
      var begin := 0;
      while begin != |s|
        invariant 0 <= begin <= |s|
        invariant Valid() && Exact() && total == old(total) + s[..begin]
        invariant forall i :: 0 <= i < mem.Length && !Reached(i, |total|) ==> mem[i] == old(mem[i])
        decreases |s| - begin
      {
        var count := |s| - begin;
        TryReserve(size + count);
        var free := capacity - size;
        if free < count {
          count := free;
        }
        ghost var before := total;
        Copy(s[begin..begin + count]);
        assert s[..begin + count] == s[..begin] + s[begin..begin + count];
        begin := begin + count;
      }
      assert s[..|s|] == s;
    }

    /** The copying loop, and the size that grows with it. */
    method Copy(s: seq<char>)
      requires Valid() && Exact() && size + |s| <= capacity
      modifies this, mem, scratch
      ensures Valid() && Exact() && total == old(total) + s
      ensures forall i :: 0 <= i < mem.Length && !Reached(i, |total|) ==> mem[i] == old(mem[i])
    {
      CopyChars(ptr, off + size, s);
      if Direct() {
        assert mem[start..start + size] == old(mem[start..start + size]);
        assert mem[start..start + size + |s|] == mem[start..start + size] + s;
      } else {
        assert mem[start..outPos] == old(mem[start..outPos]);
      }
      size := size + |s|;
      total := total + s;
    }

    /** The end of the output. It may be asked for again. */
    method Out() returns (end: nat)
      requires Valid() && (Exact() || size == 0)
      modifies this
      ensures Valid() && size == 0 && total == old(total)
      ensures old(Exact()) ==> end == start + Min(limit, |total|) && mem[start..end] == total[..Min(limit, |total|)]
      ensures !old(Exact()) ==> end == old(outPos)
    {
      Flush();
      end := outPos;
    }

    function Count(): (n: nat)
      requires Valid()
      reads this, mem, scratch
      ensures n == |total|
    {
      flushed + size
    }
  }

  // ----- format_to_n: any sequence of writes, then the end and the untruncated size -----

  datatype Piece = One(c: char) | Many(s: seq<char>)

  function Text(pieces: seq<Piece>): seq<char>
  {
    if pieces == [] then []
    else Text(pieces[..|pieces| - 1]) + (match pieces[|pieces| - 1] case One(c) => [c] case Many(s) => s)
  }

  /** The text of a list of writes, piece by piece. */
  lemma {:induction false} TextIsJoined(a: seq<Piece>, b: seq<Piece>, c: char, s: seq<char>)
    ensures Text(a + b) == Text(a) + Text(b)
    ensures Text([]) == [] && Text([One(c)]) == [c] && Text([Many(s)]) == s
    decreases b
  {
    assert [One(c)][..0] == [] && [Many(s)][..0] == [];
    if b == [] {
      assert a + b == a;
    } else {
      assert (a + b)[..|a + b| - 1] == a + b[..|b| - 1];
      TextIsJoined(a, b[..|b| - 1], c, s);
    }
  }

  method FormatToN(out: array<char>, pos: nat, n: nat, pieces: seq<Piece>) returns (end: nat, size: nat)
    requires pos + n <= out.Length
    modifies out
    ensures size == |Text(pieces)| && end == pos + Min(n, size)
    ensures out[pos..end] == Text(pieces)[..Min(n, size)]
    ensures forall i :: 0 <= i < out.Length && !(pos <= i < end) ==> out[i] == old(out[i])
  {
    var buf := new Buffer(out, pos, n);
    for k := 0 to |pieces|
      invariant buf.Valid() && buf.Exact() && buf.total == Text(pieces[..k])
      invariant fresh(buf) && fresh(buf.scratch) && buf.mem == out && buf.start == pos && buf.limit == n
      invariant forall i :: 0 <= i < out.Length && !buf.Reached(i, |buf.total|) ==> out[i] == old(out[i])
    {
      assert pieces[..k + 1][..k] == pieces[..k];
      match pieces[k] {
        case One(c) => buf.PushBack(c);
        case Many(s) => buf.Append(s);
      }
    }
    assert pieces[..|pieces|] == pieces;
    end := buf.Out();
    size := buf.Count();
  }
}
