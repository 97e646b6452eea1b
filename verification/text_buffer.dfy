/** Output into a buffer that may be too short: positions run on past the end, stores do not. Also the
    memory primitives of string.c that work on such a buffer. */
module TextBuffer {

  /** Buffer o after text s has been written at position pos, dropping what would land at or past end. */
  function Overlay(o: string, end: nat, pos: nat, s: string): (r: string)
    ensures |r| == |o|
  {
    seq(|o|, k requires 0 <= k < |o| => if pos <= k < pos + |s| && k < end then s[k - pos] else o[k])
  }

  function Repeat(c: char, n: int): (r: string)
    ensures |r| == if n > 0 then n else 0
  {
    seq(if n > 0 then n else 0, _ => c)
  }

  lemma RepeatOneMore(c: char, n: nat)
    ensures Repeat(c, n + 1) == Repeat(c, n) + [c]
  {
  }

  lemma OverlayNothing(o: string, end: nat, pos: nat)
    ensures Overlay(o, end, pos, "") == o
  {
  }

  /** Writing two texts one after the other is writing their concatenation. */
  lemma OverlayAppend(o: string, end: nat, pos: nat, s: string, t: string)
    ensures Overlay(Overlay(o, end, pos, s), end, pos + |s|, t) == Overlay(o, end, pos, s + t)
  {
  }

  /** if (buf < end) *buf = c; ++buf; */
  method Put(out: array<char>, end: nat, pos: nat, c: char) returns (next: nat)
    requires end <= out.Length
    modifies out
    ensures out[..] == Overlay(old(out[..]), end, pos, [c])
    ensures next == pos + 1
  {
    if pos < end {
      out[pos] := c;
    }
    next := pos + 1;
  }

  /** Appends one character to the text s already written from start on. */
  method Append(out: array<char>, end: nat, pos: nat, c: char, ghost o: string, ghost start: nat, ghost s: string)
    returns (next: nat)
    requires end <= out.Length && out[..] == Overlay(o, end, start, s) && pos == start + |s|
    modifies out
    ensures out[..] == Overlay(o, end, start, s + [c])
    ensures next == start + |s + [c]|
  {
    OverlayAppend(o, end, start, s, [c]);
    next := Put(out, end, pos, c);
  }

  /** memset on buf[pos..pos + count]. */
  method MemSet(buf: array<char>, pos: nat, c: char, count: nat)
    requires pos + count <= buf.Length
    modifies buf
    ensures buf[..] == Overlay(old(buf[..]), buf.Length, pos, Repeat(c, count))
  {
    ghost var m := buf[..];
    OverlayNothing(m, buf.Length, pos);
    assert Repeat(c, 0) == "";
    hide Overlay, Repeat;
    var xs, left := pos, count;
    while left > 0
      invariant 0 <= left <= count && xs == pos + (count - left)
      invariant buf[..] == Overlay(m, buf.Length, pos, Repeat(c, count - left))
    {
      RepeatOneMore(c, count - left);
      OverlayStore(m, buf.Length, pos, Repeat(c, count - left), c);
      left := left - 1;
      buf[xs] := c;
      xs := xs + 1;
    }
  }

  lemma OverlayStore(o: string, end: nat, pos: nat, s: string, c: char)
    requires pos + |s| < end <= |o|
    ensures Overlay(o, end, pos, s + [c]) == Overlay(o, end, pos, s)[pos + |s| := c]
  {
  }

  /** memcpy from another object's bytes src[..count] to buf[dest..]. */
  method MemCpy(buf: array<char>, dest: nat, src: string, count: nat)
    requires dest + count <= buf.Length && count <= |src|
    modifies buf
    ensures buf[..] == Overlay(old(buf[..]), buf.Length, dest, src[..count])
  {
    ghost var m := buf[..];
    OverlayNothing(m, buf.Length, dest);
    assert src[..0] == "";
    hide Overlay;
    var i, left := 0, count;
    while left > 0
      invariant 0 <= left <= count && i == count - left
      invariant buf[..] == Overlay(m, buf.Length, dest, src[..i])
    {
      assert src[..i + 1] == src[..i] + [src[i]];
      OverlayStore(m, buf.Length, dest, src[..i], src[i]);
      left := left - 1;
      buf[dest + i] := src[i];
      i := i + 1;
    }
  }

  /** Bytes [src, src + count) of m copied over [dest, dest + count). */
  function Moved(m: string, dest: nat, src: nat, count: nat): (r: string)
    requires dest + count <= |m| && src + count <= |m|
    ensures |r| == |m|
  {
    seq(|m|, k requires 0 <= k < |m| => if dest <= k < dest + count then m[src + (k - dest)] else m[k])
  }

  /** One byte more at the end; the byte it needs has not been overwritten yet. */
  lemma MovedOneUp(m: string, dest: nat, src: nat, count: nat)
    requires dest <= src && src + count < |m|
    ensures Moved(m, dest, src, count)[src + count] == m[src + count]
    ensures Moved(m, dest, src, count + 1) == Moved(m, dest, src, count)[dest + count := m[src + count]]
  {
  }

  /** One byte more at the front; the byte it needs has not been overwritten yet. */
  lemma MovedOneDown(m: string, dest: nat, src: nat, count: nat)
    requires 0 < src < dest && dest + count <= |m|
    ensures Moved(m, dest, src, count)[src - 1] == m[src - 1]
    ensures Moved(m, dest - 1, src - 1, count + 1) == Moved(m, dest, src, count)[dest - 1 := m[src - 1]]
  {
  }

  lemma MovedNothing(m: string, dest: nat, src: nat)
    requires dest <= |m| && src <= |m|
    ensures Moved(m, dest, src, 0) == m
  {
  }

  /** The ascending loop of memmove, for a destination at or below the source. */
  method MoveAscending(buf: array<char>, dest: nat, src: nat, count: nat)
    requires dest <= src && src + count <= buf.Length
    modifies buf
    ensures buf[..] == Moved(old(buf[..]), dest, src, count)
  {
    hide Moved;
    ghost var m := buf[..];
    MovedNothing(m, dest, src);
    var t, s, left := dest, src, count;
    while left > 0
      invariant 0 <= left <= count && t == dest + (count - left) && s == src + (count - left)
      invariant buf[..] == Moved(m, dest, src, count - left)
    {
      MovedOneUp(m, dest, src, count - left);
      left := left - 1;
      buf[t] := buf[s];
      t, s := t + 1, s + 1;
    }
  }

  /** The descending loop of memmove, for a destination above the source. */
  method MoveDescending(buf: array<char>, dest: nat, src: nat, count: nat)
    requires src < dest && dest + count <= buf.Length
    modifies buf
    ensures buf[..] == Moved(old(buf[..]), dest, src, count)
  {
    hide Moved;
    ghost var m := buf[..];
    MovedNothing(m, dest + count, src + count);
    var t, s, left := dest + count, src + count, count;
    while left > 0
      invariant 0 <= left <= count && t == dest + left && s == src + left
      invariant buf[..] == Moved(m, t, s, count - left)
    {
      MovedOneDown(m, t, s, count - left);
      left := left - 1;
      t, s := t - 1, s - 1;
      buf[t] := buf[s];
    }
  }

  /** memmove within one buffer: the count bytes at src arrive unchanged at dest, however the two
      ranges overlap, and nothing else changes. */
  method MemMove(buf: array<char>, dest: nat, src: nat, count: nat)
    requires dest + count <= buf.Length && src + count <= buf.Length
    modifies buf
    ensures buf[..] == old(buf[..dest]) + old(buf[src..src + count]) + old(buf[dest + count..])
    ensures buf[..] == Moved(old(buf[..]), dest, src, count)
  {
    hide Moved;
    MovedSlices(buf[..], dest, src, count);
    ghost var m := buf[..];
    assert m[..dest] == buf[..dest] && m[src..src + count] == buf[src..src + count]
        && m[dest + count..] == buf[dest + count..];
    if dest <= src {
      MoveAscending(buf, dest, src, count);
    } else {
      MoveDescending(buf, dest, src, count);
    }
  }

  lemma MovedSlices(m: string, dest: nat, src: nat, count: nat)
    requires dest + count <= |m| && src + count <= |m|
    ensures Moved(m, dest, src, count) == m[..dest] + m[src..src + count] + m[dest + count..]
  {
  }
}
