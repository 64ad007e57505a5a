/** The character ring buffer: one slot of the storage always stays free. */
module CircularBuffer {
  import opened Numbers

  /** The characters from `begin` up to `end`, around the end of the storage. */
  function Ring(s: seq<char>, begin: nat, end: nat): (r: seq<char>)
    requires begin < |s| && end < |s|
    ensures |r| == if end >= begin then end - begin else |s| - begin + end
  {
    if end >= begin then s[begin..end] else s[begin..] + s[..end]
  }

  function Around(s: seq<char>, p: nat): (q: nat)
    requires p < 2 * |s|
    ensures q < |s|
  {
    if p >= |s| then p - |s| else p
  }

  /** The first `n` queued characters lie in one piece, or in two around the wrap point. */
  lemma RingFront(s: seq<char>, begin: nat, end: nat, n: nat)
    requires begin < |s| && end < |s| && n <= |Ring(s, begin, end)|
    ensures Ring(s, begin, end)[..n]
         == if begin + n <= |s| then s[begin..begin + n] else s[begin..] + s[..begin + n - |s|]
  {}

  lemma Pieces(d: seq<char>, k: nat, n: nat, s: seq<char>, t: seq<char>)
    requires k <= n <= |d| && d[..k] == s && d[k..n] == t
    ensures d[..n] == s + t
  {
    assert d[..n] == d[..k] + d[k..n];
  }

  lemma RingDrop(s: seq<char>, begin: nat, end: nat, n: nat)
    requires begin < |s| && end < |s| && n <= |Ring(s, begin, end)|
    ensures Ring(s, Around(s, begin + n), end) == Ring(s, begin, end)[n..]
  {}

  /** `t` is `s` with `src` stored from `end` on, around the wrap point. */
  ghost predicate Stored(s: seq<char>, t: seq<char>, end: nat, src: seq<char>)
    requires end < |s| && |src| < |s|
  {
    && |t| == |s|
    && (forall i :: 0 <= i < |s| ==>
         t[i] == if end <= i < end + |src| then src[i - end]
                 else if i < end + |src| - |s| then src[i + |s| - end] else s[i])
  }

  lemma RingAppend(s: seq<char>, t: seq<char>, begin: nat, end: nat, src: seq<char>)
    requires begin < |s| && end < |s| && |Ring(s, begin, end)| + |src| < |s|
    requires Stored(s, t, end, src)
    ensures Ring(t, begin, Around(s, end + |src|)) == Ring(s, begin, end) + src
  {
    var e := Around(s, end + |src|);
    if begin <= end && end + |src| < |s| {
      assert t[begin..e] == s[begin..end] + src;
    } else if begin <= end {
      assert t[begin..] + t[..e] == s[begin..end] + src;
    } else {
      assert t[begin..] + t[..e] == s[begin..] + s[..end] + src;
    }
  }

  class Cbuf {
    var size: nat
    var buf: array<char>
    var begin: nat
    var end: nat

    ghost predicate Valid()
      reads this
    {
      0 < size == buf.Length && begin < size && end < size
    }

    /** The queued characters, oldest first. */
    ghost function Contents(): (s: seq<char>)
      requires Valid()
      reads this, buf
      ensures |s| < size
    {
      Ring(buf[..], begin, end)
    }

    constructor (size: nat)
      requires size > 0
      ensures Valid() && fresh(buf) && this.size == size && Contents() == []
    {
      this.size := size;
      buf := new char[size](_ => '\0');
      begin, end := 0, 0;
    }

    function WrapIfBufend(p: nat): nat
      reads this
    {
      if p == size then 0 else p
    }

    method Available() returns (n: nat)
      requires Valid()
      ensures n == |Contents()|
    {
      if end >= begin {
        return end - begin;
      }
      n := size - (begin - end);
    }

    method Room() returns (n: nat)
      requires Valid()
      ensures n == size - 1 - |Contents()|
    {
      if end >= begin {
        return size - (end - begin) - 1;
      }
      n := begin - end - 1;
    }

    predicate Empty()
      reads this
    {
      begin == end
    }

    predicate Full()
      reads this
    {
      WrapIfBufend(end + 1) == begin
    }

    lemma EmptyFull()
      requires Valid()
      ensures Empty() <==> Contents() == []
      ensures Full() <==> |Contents()| == size - 1
    {}

    /** The next character, or -1. */
    method Peek() returns (c: int)
      requires Valid()
      ensures c == if Contents() == [] then -1 else Contents()[0] as int
    {
      if Empty() {
        return -1;
      }
      c := buf[begin] as int;
    }

    /** Copies `n` characters of the storage to `dst`, as memcpy does. */
    method CopyOut(dst: array<char>, at: nat, from: nat, n: nat)
      requires dst != buf && at + n <= dst.Length && from + n <= buf.Length
      modifies dst
      ensures dst[at..at + n] == buf[from..from + n]
      ensures dst[..at] == old(dst[..at]) && dst[at + n..] == old(dst[at + n..])
    {
      forall i | 0 <= i < n {
        dst[at + i] := buf[from + i];
      }
    }

    method CopyIn(src: seq<char>, at: nat)
      requires at + |src| <= buf.Length
      modifies buf
      ensures forall i :: 0 <= i < buf.Length ==>
                buf[i] == if at <= i < at + |src| then src[i - at] else old(buf[i])
    {
      forall i | 0 <= i < |src| {
        buf[at + i] := src[i];
      }
    }

    /** Copies the first `n` queued characters, in one piece or around the wrap point. */
    method CopyFront(dst: array<char>, n: nat)
      requires Valid() && dst != buf && n <= dst.Length && n <= |Contents()|
      modifies dst
      ensures dst[..n] == Contents()[..n] && dst[n..] == old(dst[n..])
    {
      RingFront(buf[..], begin, end, n);
      hide Ring;
      if end < begin && n > size - begin {
        var topSize := size - begin;
        CopyOut(dst, 0, begin, topSize);
        CopyOut(dst, topSize, 0, n - topSize);
        Pieces(dst[..], topSize, n, buf[begin..], buf[..n - topSize]);
      } else {
        CopyOut(dst, 0, begin, n);
      }
    }

    /** Copies the first characters without taking them out. */
    method PeekBulk(dst: array<char>, n: nat) returns (sizeRead: nat)
      requires Valid() && dst != buf && n <= dst.Length
      modifies dst
      ensures sizeRead == Min(n, |Contents()|)
      ensures dst[..sizeRead] == Contents()[..sizeRead] && dst[sizeRead..] == old(dst[sizeRead..])
    {
      var bytesAvailable := Available();
      sizeRead := Min(n, bytesAvailable);
      CopyFront(dst, sizeRead);
    }

    /** Takes one character out, or returns -1. */
    method Read() returns (c: int)
      requires Valid()
      modifies this
      ensures Valid() && buf == old(buf) && size == old(size)
      ensures old(Contents()) == [] ==> c == -1 && Contents() == []
      ensures old(Contents()) != [] ==> c == old(Contents())[0] as int && Contents() == old(Contents())[1..]
    {
      if Empty() {
        return -1;
      }
      var result := buf[begin];
      begin := WrapIfBufend(begin + 1);
      c := result as int;
    }

    /** Takes up to `n` characters out, in order, across the wrap point. */
    method ReadBulk(dst: array<char>, n: nat) returns (sizeRead: nat)
      requires Valid() && dst != buf && n <= dst.Length
      modifies this, dst
      ensures Valid() && buf == old(buf) && size == old(size)
      ensures sizeRead == Min(n, |old(Contents())|)
      ensures dst[..sizeRead] == old(Contents())[..sizeRead] && dst[sizeRead..] == old(dst[sizeRead..])
      ensures Contents() == old(Contents())[sizeRead..]
    {
      var bytesAvailable := Available();
      sizeRead := Min(n, bytesAvailable);
      CopyFront(dst, sizeRead);
      RingDrop(buf[..], begin, end, sizeRead);
      var sizeToRead := sizeRead;
      if end < begin && sizeToRead > size - begin {
        sizeToRead := sizeToRead - (size - begin);
        begin := 0;
      }
      begin := WrapIfBufend(begin + sizeToRead);
    }

    /** Appends one character unless the buffer is full. */
    method Write(c: char) returns (n: nat)
      requires Valid()
      modifies this, buf
      ensures Valid() && buf == old(buf) && size == old(size)
      ensures n == if |old(Contents())| == size - 1 then 0 else 1
      ensures Contents() == old(Contents()) + if n == 1 then [c] else []
    {
      if Full() {
        return 0;
      }
      buf[end] := c;
      end := WrapIfBufend(end + 1);
      n := 1;
    }

    /** Stores `src` from `end` on, in one piece or around the wrap point. */
    method StoreBack(src: seq<char>)
      requires Valid() && |Contents()| + |src| < size
      modifies buf
      ensures Stored(old(buf[..]), buf[..], end, src)
    {
      if end >= begin && |src| > size - end {
        var topSize := size - end;
        CopyIn(src[..topSize], end);
        CopyIn(src[topSize..], 0);
      } else {
        CopyIn(src, end);
      }
    }

    /** Appends the longest prefix of `src` that fits. */
    method WriteBulk(src: seq<char>) returns (sizeWritten: nat)
      requires Valid()
      modifies this, buf
      ensures Valid() && buf == old(buf) && size == old(size)
      ensures sizeWritten == Min(|src|, size - 1 - |old(Contents())|)
      ensures Contents() == old(Contents()) + src[..sizeWritten]
    {
      var bytesAvailable := Room();
      sizeWritten := Min(|src|, bytesAvailable);
      StoreBack(src[..sizeWritten]);
      RingAppend(old(buf[..]), buf[..], begin, end, src[..sizeWritten]);
      var sizeToWrite := sizeWritten;
      if end >= begin && sizeToWrite > size - end {
        sizeToWrite := sizeToWrite - (size - end);
        end := 0;
      }
      end := WrapIfBufend(end + sizeToWrite);
    }

    method Flush()
      requires Valid()
      modifies this
      ensures Valid() && buf == old(buf) && size == old(size) && Contents() == []
    {
      begin := 0;
      end := 0;
    }

    /** Drops up to `n` characters from the front and returns how many are left. */
    method Remove(n: nat) returns (left: nat)
      requires Valid()
      modifies this
      ensures Valid() && buf == old(buf) && size == old(size)
      ensures Contents() == old(Contents())[Min(n, |old(Contents())|)..] && left == |Contents()|
    {
      var bytesAvailable := Available();
      if n >= bytesAvailable {
        Flush();
        return 0;
      }
      var sizeToRemove := n;
      RingDrop(buf[..], begin, end, n);
      if end < begin && sizeToRemove > size - begin {
        var topSize := size - begin;
        begin := 0;
        sizeToRemove := sizeToRemove - topSize;
      }
      begin := WrapIfBufend(begin + sizeToRemove);
      left := Available();
    }

    /** Changes the capacity. A size too small for the contents is refused and a larger one keeps them; a new
        size of exactly the number of queued characters leaves `end` one past the storage, and the buffer
        is then no longer usable. */
    method Resize(newSize: nat) returns (result: nat)
      requires Valid()
      modifies this
      ensures result == size && (buf == old(buf) || fresh(buf))
      ensures Valid() <==> !(newSize == |old(Contents())| && newSize != old(size))
      ensures Valid() ==> Contents() == old(Contents())
      ensures size == if newSize < |old(Contents())| then old(size) else newSize
    {
      var bytesAvailable := Available();
      if newSize < bytesAvailable || newSize == size {
        return size;
      }
      var newbuf := new char[newSize](_ => '\0');
      var got := ReadBulk(newbuf, bytesAvailable);
      begin := 0;
      end := bytesAvailable;
      size := newSize;
      buf := newbuf;
      result := size;
    }

    method ResizeAdd(addSize: nat) returns (result: nat)
      requires Valid()
      modifies this
      ensures Valid() && Contents() == old(Contents()) && result == size == old(size) + addSize
    {
      result := Resize(size + addSize);
    }
  }
}
