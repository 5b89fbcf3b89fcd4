/** Output buffers with a limit on the size of the output. */
module Buffers {

  const BUFFER_SIZE := 256

  /** The first n elements, or all if there are fewer. */
  function Truncated(s: seq<char>, n: nat): (r: seq<char>)
    ensures r <= s && |r| <= n
  {
    if |s| <= n then s else s[..n]
  }

  /** Passing on the first r of size more elements keeps a truncated copy of everything truncated. */
  ghost predicate Passes(count: nat, size: nat, limit: nat, r: nat)
  {
    r <= size
    && forall s: seq<char>, t: seq<char> :: |s| == count && |t| == size ==>
         Truncated(s + t, limit) == Truncated(s, limit) + t[..r]
  }

  lemma PassesOn(s: seq<char>, t: seq<char>, limit: nat, r: nat)
    requires Passes(|s|, |t|, limit, r)
    ensures r <= |t| && Truncated(s + t, limit) == Truncated(s, limit) + t[..r]
  {
  }

  /** fixed_buffer_traits: counts everything, passes on what fits. */
  class FixedBufferTraits {
    var count: nat
    const limit: nat

    constructor (limit: nat)
      ensures this.limit == limit && count == 0
    {
      this.limit, count := limit, 0;
    }

    method Limit(size: nat) returns (r: nat)
      modifies this
      ensures count == old(count) + size && r <= size && Passes(old(count), size, limit, r)
    {
      var n := if limit > count then limit - count else 0;
      count := count + size;
      r := if size < n then size else n;
    }
  }

  /**
   * A buffer that writes to an output iterator when flushed. Total is everything appended so far;
   * the output holds what has been flushed of it, up to the limit.
   */
  class IteratorBuffer {
    const traits: FixedBufferTraits
    const data: array<char>
    var size: nat
    var out: seq<char>
    ghost var flushed: seq<char>

    ghost predicate Valid()
      reads this, traits, data
    {
      && data.Length == BUFFER_SIZE && size <= BUFFER_SIZE
      && traits.count == |flushed| && out == Truncated(flushed, traits.limit)
    }

    ghost function Total(): seq<char>
      reads this, data
      requires data.Length == BUFFER_SIZE && size <= BUFFER_SIZE
    {
      flushed + data[..size]
    }

    constructor (limit: nat)
      ensures Valid() && fresh(traits) && fresh(data) && traits.limit == limit && Total() == []
    {
      traits := new FixedBufferTraits(limit);
      data := new char[BUFFER_SIZE];
      size, out, flushed := 0, [], [];
    }

    method Flush()
      requires Valid()
      modifies this, traits
      ensures Valid() && Total() == old(Total()) && size == 0
    {
      hide Passes;
      var all := size;
      size := 0;
      var n := traits.Limit(all);
      PassesOn(flushed, data[..all], traits.limit, n);
      var i := 0;
      while i < n
        invariant 0 <= i <= n && out == old(out) + data[..i]
        invariant size == 0 && flushed == old(flushed) && traits.count == |flushed| + all
      {
        out := out + [data[i]];
        i := i + 1;
      }
      flushed := flushed + data[..all];
      assert data[..all][..n] == data[..n];
    }

    /** Makes room for one more element at least. */
    method Grow()
      requires Valid()
      modifies this, traits
      ensures Valid() && Total() == old(Total()) && size < BUFFER_SIZE
    {
      if size == BUFFER_SIZE {
        Flush();
      }
    }

    method PushBack(c: char)
      requires Valid()
      modifies this, traits, data
      ensures Valid() && Total() == old(Total()) + [c]
    {
      if size + 1 > BUFFER_SIZE {
        Grow();
      }
      data[size] := c;
      size := size + 1;
    }

    /** Copies s[begin..begin + n] behind the elements in the buffer. */
    method Copy(s: seq<char>, begin: nat, n: nat)
      requires Valid() && begin + n <= |s| && size + n <= BUFFER_SIZE
      modifies this, data
      ensures Valid() && Total() == old(Total()) + s[begin..begin + n]
    {
      var i := 0;
      while i < n
        invariant 0 <= i <= n && size == old(size) && flushed == old(flushed) && out == old(out)
        invariant forall k :: 0 <= k < size ==> data[k] == old(data[k])
        invariant forall k :: size <= k < size + i ==> data[k] == s[begin + (k - size)]
      {
        data[size + i] := s[begin + i];
        i := i + 1;
      }
      assert data[..size + n] == old(data[..size]) + s[begin..begin + n];
      size := size + n;
    }

    /** One round of append: a chunk as large as there is room, and not empty. */
    method AppendChunk(s: seq<char>, begin: nat) returns (n: nat)
      requires Valid() && begin < |s|
      modifies this, traits, data
      ensures 0 < n <= |s| - begin
      ensures Valid() && Total() == old(Total()) + s[begin..begin + n]
    {
      var free := BUFFER_SIZE - size;
      n := |s| - begin;
      if free < n {
        Grow();
        free := BUFFER_SIZE - size;
        n := if n < free then n else free;
      }
      Copy(s, begin, n);
    }

    method Append(s: seq<char>)
      requires Valid()
      modifies this, traits, data
      ensures Valid() && Total() == old(Total()) + s
    {
      var begin := 0;
      while begin != |s|
        invariant 0 <= begin <= |s| && Valid()
        invariant Total() == old(Total()) + s[..begin]
        decreases |s| - begin
      {
        var n := AppendChunk(s, begin);
        assert s[..begin + n] == s[..begin] + s[begin..begin + n];
        begin := begin + n;
      }
      assert s[..begin] == s;
    }

    /** The output so far, truncated to the limit. */
    method Out() returns (r: seq<char>)
      requires Valid()
      modifies this, traits
      ensures Valid() && Total() == old(Total()) && r == out == Truncated(Total(), traits.limit)
    {
      Flush();
      r := out;
      assert data[..0] == [];
      assert Total() == flushed;
    }

    /** The untruncated size. */
    method Count() returns (n: nat)
      requires Valid()
      ensures n == |Total()|
    {
      return traits.count + size;
    }
  }

  /**
   * The variant for a contiguous destination, which it fills in place: once the limit is reached,
   * what follows goes to an internal array and is only counted. Taking the output ends its use:
   * whatever is appended after that is lost.
   */
  class PointerBuffer {
    const traits: FixedBufferTraits
    const dest: array<char>
    const data: array<char>
    var ptr: array<char>
    var out: nat
    var size: nat
    var capacity: nat
    ghost var flushed: seq<char>

    /** The buffer is still the destination itself. */
    predicate InPlace()
      reads this
    {
      ptr == dest && out == 0
    }

    ghost predicate Valid()
      reads this, traits, dest, data
    {
      && data.Length == BUFFER_SIZE && dest != data && traits.limit <= dest.Length && traits.count == |flushed|
      && size <= capacity <= ptr.Length
      && (ptr == dest ==> out == 0 && capacity == traits.limit && flushed == [])
      && (ptr != dest ==>
            && ptr == data && capacity == BUFFER_SIZE && out == traits.limit <= |flushed|
            && dest[..traits.limit] == flushed[..traits.limit])
    }

    ghost function Total(): seq<char>
      reads this, ptr
      requires size <= ptr.Length
    {
      flushed + ptr[..size]
    }

    constructor (dest: array<char>, limit: nat)
      requires limit <= dest.Length
      ensures Valid() && fresh(traits) && fresh(data) && this.dest == dest && traits.limit == limit && Total() == []
    {
      this.dest := dest;
      traits := new FixedBufferTraits(limit);
      data := new char[BUFFER_SIZE];
      ptr, out, size, capacity, flushed := dest, 0, 0, limit, [];
    }

    /** Called by the buffer when it is full. */
    method Flush()
      requires Valid() && size == capacity
      modifies this, traits
      ensures Valid() && Total() == old(Total()) && size == 0 && capacity == BUFFER_SIZE
    {
      hide Passes, Truncated;
      var n := traits.Limit(size);
      flushed := flushed + ptr[..size];
      if InPlace() {
        FitsWhole(old(ptr[..size]), n, traits.limit);
        out := out + n;
        ptr, capacity := data, BUFFER_SIZE;
      }
      size := 0;
    }

    method PushBack(c: char)
      requires Valid()
      modifies this, traits, dest, data
      ensures Valid() && Total() == old(Total()) + [c]
      ensures dest[traits.limit..] == old(dest[traits.limit..])
    {
      if size + 1 > capacity {
        Flush();
      }
      ptr[size] := c;
      size := size + 1;
    }

    method Copy(s: seq<char>, begin: nat, n: nat)
      requires Valid() && begin + n <= |s| && size + n <= capacity
      modifies this, dest, data
      ensures Valid() && Total() == old(Total()) + s[begin..begin + n]
      ensures dest[traits.limit..] == old(dest[traits.limit..])
    {
      var i := 0;
      while i < n
        invariant 0 <= i <= n && unchanged(this)
        invariant forall k :: 0 <= k < size ==> ptr[k] == old(ptr[k])
        invariant forall k :: size <= k < size + i ==> ptr[k] == s[begin + (k - size)]
        invariant ptr != dest ==> dest[..] == old(dest[..])
        invariant ptr == dest ==> forall k :: traits.limit <= k < dest.Length ==> dest[k] == old(dest[k])
      {
        ptr[size + i] := s[begin + i];
        i := i + 1;
      }
      assert ptr[..size + n] == old(ptr[..size]) + s[begin..begin + n];
      assert dest[traits.limit..] == old(dest[traits.limit..]);
      size := size + n;
    }

    /** One round of append: a chunk as large as there is room, and not empty. */
    method AppendChunk(s: seq<char>, begin: nat) returns (n: nat)
      requires Valid() && begin < |s|
      modifies this, traits, dest, data
      ensures 0 < n <= |s| - begin
      ensures Valid() && Total() == old(Total()) + s[begin..begin + n]
      ensures dest[traits.limit..] == old(dest[traits.limit..])
    {
      var free := capacity - size;
      n := |s| - begin;
      if free < n {
        if size == capacity {
          Flush();
        }
        free := capacity - size;
        n := if n < free then n else free;
      }
      Copy(s, begin, n);
    }

    method Append(s: seq<char>)
      requires Valid()
      modifies this, traits, dest, data
      ensures Valid() && Total() == old(Total()) + s
      ensures dest[traits.limit..] == old(dest[traits.limit..])
    {
      var begin := 0;
      while begin != |s|
        invariant 0 <= begin <= |s| && Valid()
        invariant Total() == old(Total()) + s[..begin]
        invariant dest[traits.limit..] == old(dest[traits.limit..])
        decreases |s| - begin
      {
        var n := AppendChunk(s, begin);
        assert s[..begin + n] == s[..begin] + s[begin..begin + n];
        begin := begin + n;
      }
      assert s[..begin] == s;
    }

    /** All that was appended has been counted; that much still holds after out. */
    ghost predicate Countable()
      reads this, traits, ptr
    {
      size <= ptr.Length && traits.count == |flushed|
    }

    /** The final flush: the number of elements in the destination, which are the output's first ones. */
    method Out() returns (n: nat)
      requires Valid()
      modifies this, traits
      ensures n <= dest.Length && dest[..n] == Truncated(old(Total()), traits.limit)
      ensures Countable() && Total() == old(Total()) && size == 0
    {
      hide Passes;
      n := traits.Limit(size);
      flushed := flushed + ptr[..size];
      if InPlace() {
        FitsWhole(old(ptr[..size]), n, traits.limit);
        out := out + n;
        ptr, capacity := data, BUFFER_SIZE;
      }
      size := 0;
      n := out;
    }

    /** Also after out, as vformat_to_n does. */
    method Count() returns (n: nat)
      requires Countable()
      ensures n == |Total()|
    {
      return traits.count + size;
    }
  }

  /** vformat_to_n on a character array: the end of the truncated output, and the size of the whole. */
  method FormatToN(dest: array<char>, limit: nat, text: seq<char>) returns (end: nat, size: nat)
    requires limit <= dest.Length
    modifies dest
    ensures end <= dest.Length && dest[..end] == Truncated(text, limit) && size == |text|
    ensures dest[limit..] == old(dest[limit..])
  {
    var buf := new PointerBuffer(dest, limit);
    buf.Append(text);
    assert buf.Total() == [] + text == text;
    end := buf.Out();
    size := buf.Count();
  }

  /** What fits into the destination fits the limit. */
  lemma FitsWhole(s: seq<char>, n: nat, limit: nat)
    requires |s| <= limit && Passes(0, |s|, limit, n)
    ensures n == |s|
  {
    PassesOn([], s, limit, n);
    assert [] + s == s;
    assert Truncated([] + s, limit) == s;
  }
}
