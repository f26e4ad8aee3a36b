/** The growing byte buffer under the regular-expression compiler. */
module DynBuffer {
  import opened ReOpcode

  /** s with the bytes at p replaced by b. */
  function Overwrite(s: seq<byte>, p: nat, b: seq<byte>): (r: seq<byte>)
    requires p + |b| <= |s|
    ensures |r| == |s|
  {
    s[..p] + b + s[p + |b|..]
  }

  /** Overwriting the front of a gap. */
  lemma {:induction false} OverwriteGap(pre: seq<byte>, gap: seq<byte>, post: seq<byte>, b: seq<byte>)
    requires |b| <= |gap|
    ensures Overwrite(pre + gap + post, |pre|, b) == pre + b + gap[|b|..] + post
  {
  }

  lemma {:induction false} OverwriteTake(s: seq<byte>, n: nat, p: nat, b: seq<byte>)
    requires p + |b| <= n <= |s|
    ensures Overwrite(s, p, b)[..n] == Overwrite(s[..n], p, b)
  {
  }

  /** Shifting everything from start up by the size of the last block, then copying that block
      down to start. */
  lemma {:induction false} MovedBlock(s: seq<byte>, start: nat, mid: nat, end: nat)
    requires start <= mid <= end && end + (end - mid) <= |s|
    ensures var n := end - mid;
            var t := Overwrite(s, start + n, s[start..end]);
            Overwrite(t, start, t[end..end + n])[..end] == s[..start] + s[mid..end] + s[start..mid]
  {
    var n := end - mid;
    var t := Overwrite(s, start + n, s[start..end]);
    assert t[..start + n] == s[..start + n];
    assert t[start + n..end + n] == s[start..end];
    assert t[end..end + n] == s[mid..end] by {
      assert t[end..end + n] == t[start + n..end + n][mid - start..];
    }
    assert t[start + n..end] == s[start..mid] by {
      assert t[start + n..end] == t[start + n..end + n][..mid - start];
    }
    var u := Overwrite(t, start, t[end..end + n]);
    assert u[..end] == t[..start] + t[end..end + n] + t[start + n..end];
  }

  lemma {:induction false} Slices(s: seq<byte>, start: nat, mid: nat, end: nat)
    requires start <= mid <= end <= |s|
    ensures s[..end][..start] == s[..start] && s[..end][mid..] == s[mid..end] && s[..end][start..mid] == s[start..mid]
  {
  }

  class DynBuf {
    /** The allocated bytes, of which the first size are in use. */
    var buf: seq<byte>
    var size: nat

    ghost predicate Valid()
      reads this
    {
      size <= |buf|
    }

    ghost function Contents(): (s: seq<byte>)
      requires Valid()
      reads this
    {
      buf[..size]
    }

    constructor ()
      ensures Valid() && Contents() == []
    {
      buf, size := [], 0;
    }

    /** Makes room for newSize bytes, growing by at least half. */
    method Realloc(newSize: nat)
      requires Valid()
      modifies this
      ensures Valid() && size == old(size) && Contents() == old(Contents()) && |buf| >= newSize
      ensures |buf| >= |old(buf)| && buf[..|old(buf)|] == old(buf)
    {
      if newSize > |buf| {
        var grown := |buf| * 3 / 2;
        var n := if grown > newSize then grown else newSize;
        buf := buf + seq(n - |buf|, _ => 0);
      }
    }

    /** Moves n allocated bytes; the areas may overlap. */
    method Memmove(dst: nat, src: nat, n: nat)
      requires Valid() && dst + n <= |buf| && src + n <= |buf|
      modifies this`buf
      ensures buf == Overwrite(old(buf), dst, old(buf)[src..src + n])
    {
      buf := Overwrite(buf, dst, buf[src..src + n]);
    }

    method Put(data: seq<byte>)
      requires Valid()
      modifies this
      ensures Valid() && Contents() == old(Contents()) + data
    {
      if size + |data| > |buf| {
        Realloc(size + |data|);
      }
      buf := Overwrite(buf, size, data);
      size := size + |data|;
    }

    method Putc(c: byte)
      requires Valid()
      modifies this
      ensures Valid() && Contents() == old(Contents()) + [c]
    {
      Put([c]);
    }

    method PutU16(v: int)
      requires Valid()
      modifies this
      ensures Valid() && Contents() == old(Contents()) + U16(v)
    {
      Put(U16(v));
    }

    method PutU32(v: int)
      requires Valid()
      modifies this
      ensures Valid() && Contents() == old(Contents()) + U32(v)
    {
      Put(U32(v));
    }

    /** Appends a copy of part of the contents. */
    method PutSelf(offset: nat, len: nat)
      requires Valid() && offset + len <= size
      modifies this
      ensures Valid() && Contents() == old(Contents()) + old(Contents())[offset..offset + len]
    {
      if size + len > |buf| {
        Realloc(size + len);
      }
      assert buf[offset..offset + len] == old(Contents())[offset..offset + len];
      Memmove(size, offset, len);
      size := size + len;
    }

    method Set(p: nat, b: seq<byte>)
      requires Valid() && p + |b| <= size
      modifies this`buf
      ensures Valid() && |buf| == |old(buf)| && Contents() == Overwrite(old(Contents()), p, b)
    {
      OverwriteTake(buf, size, p, b);
      buf := Overwrite(buf, p, b);
    }

    method SetU32(p: nat, v: int)
      requires Valid() && p + 4 <= size
      modifies this`buf
      ensures Valid() && |buf| == |old(buf)| && Contents() == Overwrite(old(Contents()), p, U32(v))
    {
      Set(p, U32(v));
    }

    /** Opens a gap of len bytes at pos; what it holds at first is not specified. */
    method Insert(pos: nat, len: nat) returns (ghost gap: seq<byte>)
      requires Valid() && pos <= size
      modifies this
      ensures Valid() && |gap| == len
      ensures Contents() == old(Contents())[..pos] + gap + old(Contents())[pos..]
    {
      Realloc(size + len);
      ghost var before := buf;
      assert buf[pos..size] == old(Contents())[pos..];
      Memmove(pos + len, pos, size - pos);
      size := size + len;
      gap := before[pos..pos + len];
      assert Contents() == before[..pos + len] + old(Contents())[pos..];
      assert before[..pos + len] == before[..pos] + gap;
      assert before[..pos] == old(Contents())[..pos];
    }

    method Truncate(n: nat)
      requires Valid() && n <= size
      modifies this`size
      ensures Valid() && Contents() == old(Contents())[..n]
    {
      size := n;
    }

    /** Moves the last block, which starts at mid, in front of the bytes from start on: the space
        past the end is used to shift everything up, then the block is copied down. */
    method MoveLastBlock(start: nat, mid: nat)
      requires Valid() && start <= mid <= size
      modifies this
      ensures Valid()
      ensures var s := old(Contents()); Contents() == s[..start] + s[mid..] + s[start..mid]
    {
      hide Overwrite;
      var termSize := size - mid;
      Realloc(size + termSize);
      Slices(buf, start, mid, size);
      MovedBlock(buf, start, mid, size);
      Memmove(start + termSize, start, size - start);
      Memmove(start, size, termSize);
    }
  }
}
