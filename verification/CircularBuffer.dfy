/** The ring buffer of circularbuffer.h: an abstract queue, and the class that refines it. */
module Ring {
  import opened Bytes

  /** What a ring holds, plus the position of its oldest byte, on which acceptance depends. */
  datatype Queue = Queue(cap: nat, start: nat, bytes: seq<byte>) {
    ghost predicate Valid() {
      start < cap && |bytes| <= cap
    }

    predicate Wrapped() {
      start + |bytes| >= cap
    }

    function Free(): int {
      cap - |bytes|
    }

    /** How many of `count` offered bytes the ring takes. */
    function Accepts(count: int): nat {
      if count <= 0 || Free() <= 0 then 0
      else if bytes == [] then Min(count, cap)
      else if count < Free() || (count == Free() && !Wrapped()) then count
      else 0
    }

    function Put(input: seq<byte>): Queue
    {
      Queue(cap, start, bytes + input)
    }

    function Drop(n: nat): Queue
      requires n <= |bytes| <= cap
    {
      Queue(cap, if start + n < cap then start + n else start + n - cap, bytes[n..])
    }
  }

  /** When a write gets nothing in: no bytes offered, the ring full, or holding something and left with
      too little room, or with just enough of it around the end of the array. */
  predicate WriteRefused(q: Queue, count: int) {
    || count <= 0
    || |q.bytes| == q.cap
    || (q.bytes != [] && count > q.cap - |q.bytes|)
    || (q.bytes != [] && q.start + |q.bytes| >= q.cap && count == q.cap - |q.bytes|)
  }

  /** The acceptance law: all or nothing, except that an empty ring takes what fits. */
  lemma AcceptanceLaw(q: Queue, count: int)
    requires q.Valid()
    ensures q.Accepts(count) == if WriteRefused(q, count) then 0 else Min(count, q.cap)
    ensures |q.bytes| + q.Accepts(count) <= q.cap
  {
  }

  /** `b` with `piece` copied over the bytes from position `at`: the effect of memcpy(&b[at], piece). */
  ghost function Overlay(b: seq<byte>, at: nat, piece: seq<byte>): (r: seq<byte>)
    requires at + |piece| <= |b|
    ensures |r| == |b|
  {
    b[..at] + piece + b[at + |piece|..]
  }

  /** The bytes of `b` from `r` to `w`, going around its end unless r < w. */
  ghost function Span(b: seq<byte>, r: nat, w: nat, empty: bool): seq<byte>
    requires r < |b| && w < |b|
  {
    if empty then [] else if r < w then b[r..w] else b[r..] + b[..w]
  }

  lemma SpanLength(b: seq<byte>, r: nat, w: nat, empty: bool)
    requires r < |b| && w < |b|
    ensures |Span(b, r, w, empty)| == if empty then 0 else if r < w then w - r else |b| - r + w
  {
  }

  /** Writing behind the write position without reaching the end or the read position. */
  lemma SpanAppend(b: seq<byte>, r: nat, w: nat, empty: bool, piece: seq<byte>)
    requires r < |b| && w + |piece| < |b| && piece != []
    requires if empty then r == w else r != w
    requires w < r ==> w + |piece| < r
    ensures Span(Overlay(b, w, piece), r, w + |piece|, false) == Span(b, r, w, empty) + piece
  {
    var o := Overlay(b, w, piece);
    if r <= w {
      assert o[r..w + |piece|] == b[r..w] + piece;
    } else {
      assert o[r..] == b[r..];
      assert o[..w + |piece|] == b[..w] + piece;
    }
  }

  /** Writing up to the end of the array and on from its start, at most up to the read position. */
  lemma SpanAppendAround(b: seq<byte>, r: nat, w: nat, empty: bool, tail: seq<byte>, rest: seq<byte>)
    requires r <= w < |b| && w + |tail| == |b| && |rest| <= r
    requires empty <==> r == w
    ensures Span(Overlay(Overlay(b, w, tail), 0, rest), r, |rest|, false)
         == Span(b, r, w, empty) + (tail + rest)
  {
    var once := Overlay(b, w, tail);
    assert once == b[..w] + tail;
    assert once[r..] == b[r..w] + tail;
    var o := Overlay(once, 0, rest);
    assert o == rest + once[|rest|..];
    assert o[..|rest|] == rest;
    assert o[r..] == once[r..] by {
      OverlaySuffix(once, rest, r);
    }
    assert Span(o, r, |rest|, false) == (b[r..w] + tail) + rest;
    assert (b[r..w] + tail) + rest == b[r..w] + (tail + rest);
  }

  lemma OverlaySuffix(b: seq<byte>, piece: seq<byte>, r: nat)
    requires |piece| <= r <= |b|
    ensures Overlay(b, 0, piece)[r..] == b[r..]
  {
  }

  /** Reading without going around. */
  lemma SpanTake(b: seq<byte>, r: nat, w: nat, n: nat)
    requires r < |b| && w < |b| && 0 < n && r + n < |b|
    requires r < w ==> r + n <= w
    ensures b[r..r + n] == Span(b, r, w, false)[..n]
    ensures Span(b, r + n, w, r + n == w) == Span(b, r, w, false)[n..]
  {
  }

  /** Reading up to the end of the array and `k` bytes from its start. */
  lemma SpanTakeAround(b: seq<byte>, r: nat, w: nat, k: nat)
    requires w <= r < |b| && k <= w
    ensures b[r..] + b[..k] == Span(b, r, w, false)[..|b| - r + k]
    ensures Span(b, k, w, k == w) == Span(b, r, w, false)[|b| - r + k..]
  {
  }

  lemma OverlayTwice(b: seq<byte>, first: seq<byte>, second: seq<byte>)
    requires |first| + |second| <= |b|
    ensures var o := Overlay(Overlay(b, 0, first), |first|, second);
      var n := |first| + |second|;
      o[..n] == first + second && o[n..] == b[n..]
  {
  }

  class CircularBuffer {
    var isEmpty: bool
    var isFull: bool
    const buf: array<byte>
    const bufSize: int32
    var readPos: int32
    var writePos: int32

    ghost predicate Valid()
      reads this
    {
      && buf.Length == bufSize as int
      && 0 <= readPos < bufSize
      && 0 <= writePos < bufSize
      && (readPos == writePos <==> isEmpty || isFull)
      && !(isEmpty && isFull)
    }

    ghost function Contents(): (q: Queue)
      requires Valid()
      reads this, buf
      ensures q.Valid() && q.cap == bufSize as int
    {
      SpanLength(buf[..], readPos as int, writePos as int, isEmpty);
      Queue(bufSize as int, readPos as int, Span(buf[..], readPos as int, writePos as int, isEmpty))
    }

    constructor (capacity: int32)
      requires capacity > 0
      ensures Valid() && fresh(buf) && bufSize == capacity
      ensures Contents() == Queue(capacity as int, 0, [])
    {
      isEmpty, isFull := true, false;
      bufSize, readPos, writePos := capacity, 0, 0;
      buf := new byte[capacity as int];
    }

    predicate Full()
      requires Valid()
      reads this, buf
      ensures Full() <==> |Contents().bytes| == Contents().cap
    {
      isFull
    }

    predicate Empty()
      requires Valid()
      reads this, buf
      ensures Empty() <==> Contents().bytes == []
    {
      isEmpty
    }

    method Clear()
      requires Valid()
      modifies this
      ensures Valid() && Contents() == Queue(bufSize as int, 0, [])
    {
      readPos := 0;
      writePos := 0;
      isEmpty := true;
      isFull := false;
    }

    function Size(): (n: int32)
      requires Valid()
      reads this, buf
      ensures n as int == |Contents().bytes|
    {
      if isEmpty then 0
      else if isFull then bufSize
      else if readPos < writePos then writePos - readPos
      else bufSize - readPos + writePos
    }

    /** memcpy(&m_pBuf[at], piece, |piece|) */
    method CopyIn(at: int32, piece: seq<byte>)
      requires 0 <= at as int <= at as int + |piece| <= buf.Length
      modifies buf
      ensures buf[..] == Overlay(old(buf[..]), at as int, piece)
    {
      forall i | 0 <= i < |piece| {
        buf[at as int + i] := piece[i];
      }
    }

    /** One memcpy behind the write position. */
    method Append(piece: seq<byte>)
      requires buf.Length == bufSize as int && 0 <= readPos < bufSize && 0 <= writePos < bufSize
      requires piece != [] && writePos as int + |piece| < buf.Length
      requires writePos < readPos ==> writePos as int + |piece| < readPos as int
      modifies this`writePos, buf
      ensures writePos as int == old(writePos) as int + |piece|
      ensures Span(buf[..], readPos as int, writePos as int, false)
           == old(Span(buf[..], readPos as int, writePos as int, readPos == writePos)) + piece
    {
      SpanAppend(buf[..], readPos as int, writePos as int, readPos == writePos, piece);
      CopyIn(writePos, piece);
      writePos := writePos + |piece| as int32;
    }

    /** Two memcpys: up to the end of the array, then the remaining `wrapped` bytes at its start. */
    method AppendAround(src: seq<byte>, leftcount: int32, wrapped: int32)
      requires buf.Length == bufSize as int && 0 <= readPos <= writePos < bufSize
      requires leftcount == bufSize - writePos && 0 <= wrapped <= readPos
      requires leftcount as int + wrapped as int <= |src|
      modifies this`writePos, buf
      ensures writePos == wrapped
      ensures Span(buf[..], readPos as int, writePos as int, false)
           == old(Span(buf[..], readPos as int, writePos as int, readPos == writePos))
              + src[..leftcount as int + wrapped as int]
    {
      var rest := src[leftcount..leftcount + wrapped];
      SpanAppendAround(buf[..], readPos as int, writePos as int, readPos == writePos, src[..leftcount], rest);
      assert src[..leftcount] + rest == src[..leftcount + wrapped];
      CopyIn(writePos, src[..leftcount]);
      writePos := wrapped;
      CopyIn(0, rest);
    }

    /** Appends what the acceptance law allows. Every intermediate position fits a 32-bit int. */
    method Write(src: seq<byte>, count: int32) returns (written: int32)
      requires Valid()
      requires count as int <= |src|
      modifies this, buf
      ensures Valid()
      ensures written as int == old(Contents()).Accepts(count as int)
      ensures written as int ==
        if WriteRefused(old(Contents()), count as int) then 0 else Min(count as int, bufSize as int)
      ensures Contents() == Queue(bufSize as int, old(Contents()).start, old(Contents()).bytes + src[..written])
    {
      hide Span, Overlay;
      SpanLength(buf[..], readPos as int, writePos as int, isEmpty);
      if count <= 0 {
        return 0;
      }
      if isFull {
        return 0;
      }
      isEmpty := false;
      if readPos == writePos {
        var leftcount := bufSize - writePos;
        if leftcount > count {
          Append(src[..count]);
          return count;
        } else {
          AppendAround(src, leftcount, if readPos > count - leftcount then count - leftcount else writePos);
          isFull := writePos == readPos;
          return leftcount + writePos;
        }
      } else if readPos < writePos {
        var leftcount := bufSize - writePos;
        if leftcount > count {
          Append(src[..count]);
          isFull := readPos == writePos;
          return count;
        } else {
          if readPos >= count - leftcount {
            AppendAround(src, leftcount, count - leftcount);
            isFull := readPos == writePos;
            return leftcount + writePos;
          }
          return 0;
        }
      } else {
        var leftcount := readPos - writePos;
        if leftcount > count {
          Append(src[..count]);
          isFull := readPos == writePos;
          return count;
        } else {
          return 0;
        }
      }
    }

    /** memcpy(&dest[at], &m_pBuf[from], n) */
    method CopyOut(dest: array<byte>, at: int32, from: int32, n: int32)
      requires dest != buf && n >= 0
      requires 0 <= from as int <= from as int + n as int <= buf.Length
      requires 0 <= at as int <= at as int + n as int <= dest.Length
      modifies dest
      ensures dest[..] == Overlay(old(dest[..]), at as int, buf[from..from as int + n as int])
    {
      forall i | 0 <= i < n as int {
        dest[at as int + i] := buf[from as int + i];
      }
    }

    /** One memcpy from the read position of a non-empty ring. */
    method Take(dest: array<byte>, n: int32)
      requires Valid() && !isEmpty && dest != buf
      requires 0 < n as int <= dest.Length && readPos as int + n as int < buf.Length
      requires readPos < writePos ==> readPos as int + n as int <= writePos as int
      modifies this, dest
      ensures Valid() && n as int <= |old(Contents()).bytes|
      ensures dest[..n] == old(Contents()).bytes[..n] && dest[n..] == old(dest[n..])
      ensures Contents() == old(Contents()).Drop(n as int)
    {
      hide Span;
      SpanLength(buf[..], readPos as int, writePos as int, false);
      SpanTake(buf[..], readPos as int, writePos as int, n as int);
      CopyOut(dest, 0, readPos, n);
      readPos := readPos + n;
      isEmpty := readPos == writePos;
      isFull := false;
    }

    /** Two memcpys: the end of the array, then its first `wrapped` bytes. */
    method TakeAround(dest: array<byte>, leftcount: int32, wrapped: int32)
      requires Valid() && !isEmpty && dest != buf
      requires 0 <= wrapped <= writePos <= readPos && leftcount == bufSize - readPos
      requires leftcount as int + wrapped as int <= dest.Length
      modifies this, dest
      ensures Valid() && readPos == wrapped
      ensures var n := leftcount as int + wrapped as int;
        && n <= |old(Contents()).bytes|
        && dest[..n] == old(Contents()).bytes[..n] && dest[n..] == old(dest[n..])
        && Contents() == old(Contents()).Drop(n)
    {
      hide Span;
      ghost var b, r, n := buf[..], readPos as int, leftcount as int + wrapped as int;
      SpanLength(b, r, writePos as int, false);
      SpanTakeAround(b, r, writePos as int, wrapped as int);
      OverlayTwice(dest[..], b[r..], b[..wrapped]);
      CopyOut(dest, 0, readPos, leftcount);
      readPos := wrapped;
      CopyOut(dest, leftcount, 0, readPos);
      assert dest[..n] == dest[..][..n] == b[r..] + b[..wrapped];
      isEmpty := readPos == writePos;
      isFull := false;
    }

    /** Removes the oldest min(count, size) bytes into `dest` and leaves the rest of `dest` alone. */
    method Read(dest: array<byte>, count: int32) returns (n: int32)
      requires Valid() && dest != buf
      requires count as int <= dest.Length
      modifies this, dest
      ensures Valid()
      ensures n as int == if count <= 0 then 0 else Min(count as int, |old(Contents()).bytes|)
      ensures dest[..n] == old(Contents()).bytes[..n] && dest[n..] == old(dest[n..])
      ensures Contents() == old(Contents()).Drop(n as int)
      ensures Contents().bytes == old(Contents()).bytes[n..]
      ensures var at := old(Contents()).start + n as int;
        Contents().start == if at < bufSize as int then at else at - bufSize as int
    {
      hide Span, Overlay;
      SpanLength(buf[..], readPos as int, writePos as int, isEmpty);
      if count <= 0 {
        return 0;
      }
      if isEmpty {
        return 0;
      }
      if readPos == writePos {
        var leftcount := bufSize - readPos;
        if leftcount > count {
          Take(dest, count);
          return count;
        } else {
          TakeAround(dest, leftcount, if writePos > count - leftcount then count - leftcount else writePos);
          return leftcount + readPos;
        }
      } else if readPos < writePos {
        var leftcount := writePos - readPos;
        var c := if leftcount > count then count else leftcount;
        Take(dest, c);
        return c;
      } else {
        var leftcount := bufSize - readPos;
        if leftcount > count {
          Take(dest, count);
          return count;
        } else {
          TakeAround(dest, leftcount, if writePos >= count - leftcount then count - leftcount else writePos);
          return leftcount + readPos;
        }
      }
    }
  }
}
