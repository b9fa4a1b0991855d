/** The in-memory sinks behind avio_open_dyn_buf, ffio_open_dyn_packet_buf and
    ffio_open_null_buf: a growable byte array with a write position and a
    high-water size. */
module DynBuf {
  import opened Bytes
  import opened AvioConsts

  function Max(a: int, b: int): int { if a >= b then a else b }

  /** What a DynBuffer holds: the write position, the size and the allocated bytes
      (allocated_size of them). */
  datatype DynState = DynState(pos: int, size: int, data: seq<byte>)

  /** The capacity dyn_buf_write settles on: start from need when nothing is
      allocated, otherwise grow by half plus one until need fits. */
  function Grow(alloc: nat, need: nat): (r: nat)
    ensures r >= need && r >= alloc
    decreases need - alloc
  {
    if need <= alloc then alloc
    else if alloc == 0 then need
    else Grow(alloc + alloc / 2 + 1, need)
  }

  /** The capacity is the old one when that suffices, and otherwise overshoots
      the request by at most half of it. */
  lemma {:induction false} GrowBounds(alloc: nat, need: nat)
    ensures need <= alloc ==> Grow(alloc, need) == alloc
    ensures Grow(alloc, need) <= Max(alloc, need + need / 2)
    decreases need - alloc
  {
    if need > alloc && alloc != 0 {
      GrowBounds(alloc + alloc / 2 + 1, need);
    }
  }

  /** new_size = d->pos + buf_size in unsigned arithmetic: the sum wraps only when
      it is far above INT_MAX / 2, and then it lands below pos. */
  lemma UnsignedSum(p: int, n: int)
    requires 0 <= p && 0 <= n <= INT_MAX
    ensures var s := (p + n) % TWO_32; (s < p || s > INT_MAX / 2) <==> p + n > INT_MAX / 2
    ensures var s := (p + n) % TWO_32; p + n <= INT_MAX / 2 ==> s == p + n
  {
    var s := (p + n) % TWO_32;
    if p + n < TWO_32 {
      DivModUnique(p + n, TWO_32, 0, p + n);
    } else {
      var q := (p + n) / TWO_32;
      assert p + n == TWO_32 * q + s;
      assert q >= 1;
      MulAtLeast(TWO_32, q);
    }
  }

  /** after agrees with before everywhere before shares outside [lo, hi). */
  ghost predicate Kept(before: seq<byte>, after: seq<byte>, lo: int, hi: int)
  {
    |after| >= |before| && forall i :: 0 <= i < |before| && !(lo <= i < hi) ==> after[i] == before[i]
  }

  /** Two writes side by side keep what lies outside both. */
  lemma KeptJoin(a: seq<byte>, b: seq<byte>, c: seq<byte>, lo: int, mid: int, hi: int)
    requires lo <= mid <= hi && Kept(a, b, lo, mid) && Kept(b, c, mid, hi)
    ensures Kept(a, c, lo, hi)
  {
  }

  /** The position dyn_buf_seek aims at. */
  function SeekTarget(st: DynState, offset: int, whence: int): (r: int)
    ensures r == offset || r == offset + st.pos || r == offset + st.size
    ensures whence == SEEK_CUR && offset == 0 ==> r == st.pos
    ensures whence == SEEK_END && offset == 0 ==> r == st.size
  {
    if whence == SEEK_CUR then offset + st.pos
    else if whence == SEEK_END then offset + st.size
    else offset
  }

  /** The DynBuffer behind a dynamic-buffer or null-buffer context. The struct's
      io_buffer, the context's write buffer, belongs to the context here. */
  class DynBuffer {
    var pos: int
    var size: int
    var allocatedSize: int
    var buffer: array<byte>

    ghost predicate Valid()
      reads this
    {
      0 <= pos && 0 <= size && allocatedSize == buffer.Length <= INT_MAX
    }

    ghost function State(): DynState
      reads this, buffer
    {
      DynState(pos, size, buffer[..])
    }

    /** The zero-filled struct av_mallocz returns. */
    constructor ()
      ensures Valid() && fresh(buffer) && State() == DynState(0, 0, [])
    {
      pos, size, allocatedSize := 0, 0, 0;
      buffer := new byte[0];
    }

    /** dyn_buf_write: the data land at pos and pos moves past them, unless the
        new position would pass INT_MAX / 2, in which case nothing changes and the
        result is -1. Bytes of a grown allocation that were not written are left
        unspecified, as C leaves them uninitialised. */
    method Write(buf: seq<byte>) returns (ret: int)
      requires Valid() && |buf| <= INT_MAX
      modifies this, buffer
      ensures Valid() && (buffer == old(buffer) || fresh(buffer))
      ensures ret == -1 <==> old(pos) + |buf| > INT_MAX / 2
      ensures ret == -1 ==>
        && pos == old(pos) && size == old(size) && allocatedSize == old(allocatedSize)
        && buffer == old(buffer) && buffer[..] == old(buffer[..])
      ensures ret != -1 ==>
        && ret == |buf| && pos == old(pos) + |buf| && size == Max(old(size), pos)
        && allocatedSize == Grow(old(allocatedSize), pos)
        && buffer[old(pos)..pos] == buf
        && Kept(old(buffer[..]), buffer[..], old(pos), pos)
    {
      var newSize := (pos + |buf|) % TWO_32;
      UnsignedSum(pos, |buf|);
      if newSize < pos || newSize > INT_MAX / 2 {
        return -1;
      }
      Reserve(newSize);
      CopyIn(pos, buf);
      pos := newSize;
      if pos > size {
        size := pos;
      }
      ret := |buf|;
    }

    /** The growth step of dyn_buf_write: enlarge the allocation the way Grow says
        until need bytes fit, keeping the bytes already there. */
    method Reserve(need: int)
      requires Valid() && 0 <= need <= INT_MAX / 2
      modifies this
      ensures Valid() && (buffer == old(buffer) || fresh(buffer))
      ensures allocatedSize == Grow(old(allocatedSize), need)
      ensures buffer.Length >= old(buffer.Length) && buffer[..old(buffer.Length)] == old(buffer[..])
      ensures pos == old(pos) && size == old(size)
    {
      var newAlloc := allocatedSize;
      while need > newAlloc
        invariant 0 <= newAlloc
        invariant Grow(newAlloc, need) == Grow(allocatedSize, need)
        decreases need - newAlloc
      {
        if newAlloc == 0 {
          newAlloc := need;
        } else {
          newAlloc := newAlloc + newAlloc / 2 + 1;
        }
      }
      GrowBounds(allocatedSize, need);
      if newAlloc > allocatedSize {
        Realloc(newAlloc);
      }
    }

    /** av_reallocp: a larger block holding the old bytes (allocation is taken to
        succeed; the new bytes are zero here). */
    method Realloc(n: int)
      requires Valid() && buffer.Length < n <= INT_MAX
      modifies this
      ensures Valid() && fresh(buffer) && allocatedSize == n
      ensures buffer[..old(buffer.Length)] == old(buffer[..])
      ensures pos == old(pos) && size == old(size)
    {
      var bigger := new byte[n](_ => 0);
      forall i | 0 <= i < buffer.Length {
        bigger[i] := buffer[i];
      }
      assert bigger[..buffer.Length] == buffer[..];
      buffer := bigger;
      allocatedSize := n;
    }

    /** memcpy(d->buffer + at, part, |part|). */
    method CopyIn(at: int, part: seq<byte>)
      requires 0 <= at && at + |part| <= buffer.Length
      modifies buffer
      ensures buffer[at..at + |part|] == part
      ensures forall i :: 0 <= i < buffer.Length && !(at <= i < at + |part|) ==> buffer[i] == old(buffer[i])
    {
      forall i | 0 <= i < |part| {
        buffer[at + i] := part[i];
      }
    }

    /** dyn_packet_buf_write: a 4-byte big-endian length, then the data; a write
        that does not fit stops where dyn_buf_write refused. */
    method PacketWrite(buf: seq<byte>) returns (ret: int)
      requires Valid() && |buf| <= INT_MAX
      modifies this, buffer
      ensures Valid() && (buffer == old(buffer) || fresh(buffer))
      ensures old(pos) + 4 > INT_MAX / 2 ==>
        && ret == -1 && pos == old(pos) && size == old(size) && allocatedSize == old(allocatedSize)
        && buffer == old(buffer) && buffer[..] == old(buffer[..])
      ensures old(pos) + 4 <= INT_MAX / 2 ==>
        buffer.Length >= old(pos) + 4 && buffer[old(pos)..old(pos) + 4] == BE(|buf|, 4)
      ensures old(pos) + 4 <= INT_MAX / 2 < old(pos) + 4 + |buf| ==>
        && ret == -1 && pos == old(pos) + 4 && size == Max(old(size), old(pos) + 4)
        && allocatedSize == Grow(old(allocatedSize), old(pos) + 4)
        && Kept(old(buffer[..]), buffer[..], old(pos), pos)
      ensures old(pos) + 4 + |buf| <= INT_MAX / 2 ==>
        && ret == |buf| && pos == old(pos) + 4 + |buf| && size == Max(old(size), pos)
        && allocatedSize == Grow(Grow(old(allocatedSize), old(pos) + 4), pos)
        && buffer.Length >= pos && buffer[old(pos) + 4..pos] == buf
        && Kept(old(buffer[..]), buffer[..], old(pos), pos)
    {
      var header := BE(|buf|, 4);
      ret := Write(header);
      if ret < 0 {
        return;
      }
      ghost var mid := buffer[..];
      ret := Write(buf);
      if ret != -1 {
        KeptJoin(old(buffer[..]), mid, buffer[..], old(pos), old(pos) + 4, pos);
        assert buffer[old(pos)..old(pos) + 4] == mid[old(pos)..old(pos) + 4];
      }
    }

    /** dyn_buf_seek: positions outside [0, 0x7fffffff] are refused with -1;
        the size is never changed. */
    method Seek(offset: int, whence: int) returns (ret: int)
      requires Valid()
      modifies this
      ensures Valid()
      ensures var target := SeekTarget(old(State()), offset, whence);
        if target < 0 || target > 0x7fff_ffff then ret == -1 && pos == old(pos)
        else ret == 0 && pos == target
      ensures size == old(size) && buffer == old(buffer) && allocatedSize == old(allocatedSize)
    {
      var target := offset;
      if whence == SEEK_CUR {
        target := target + pos;
      } else if whence == SEEK_END {
        target := target + size;
      }
      if target < 0 || target > 0x7fff_ffff {
        return -1;
      }
      pos := target;
      ret := 0;
    }

    /** null_buf_write: only the position and the size move. */
    method NullWrite(n: int) returns (ret: int)
      requires Valid() && 0 <= n
      modifies this
      ensures Valid()
      ensures ret == n && pos == old(pos) + n && size == Max(old(size), pos)
      ensures buffer == old(buffer) && allocatedSize == old(allocatedSize)
    {
      pos := pos + n;
      if pos > size {
        size := pos;
      }
      ret := n;
    }
  }
}
