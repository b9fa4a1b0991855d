/** AVIOContext: a byte buffer in front of a packet source or sink. A write
    context collects bytes in buffer[0..buf_ptr) and hands them to its write
    callback when the buffer is full or flushed; a read context keeps the window
    buffer[0..buf_end) of the stream ending at pos, refilled from its read
    callback. Pointers into the buffer are indices here: bufPtr is
    buf_ptr - buffer and bufEnd is buf_end - buffer.

    The callbacks are part of the model: the read callback serves the bytes of
    the sequence input from srcPos on, in chunks of any size the caller can take,
    then returns srcStatus; the write callback is either an unknown sink that
    accepts or refuses each packet, or one of the DynBuffer writers. */
module Avio {
  import opened Bytes
  import opened AvioConsts
  import opened DynBuf

  function Min(a: int, b: int): int { if a <= b then a else b }

  /** The function installed as write_data_type / write_packet. */
  datatype Writer =
    | NoWriter          // neither callback set
    | PacketCallback    // an unknown write_packet
    | DataTypeCallback  // an unknown write_data_type, which takes precedence over write_packet
    | DynWrite          // dyn_buf_write
    | DynPacketWrite    // dyn_packet_buf_write
    | NullWrite         // null_buf_write

  /** The function installed as seek. */
  datatype Seeker = NoSeek | SourceSeek | DynSeek

  /** One call of the write callback. */
  datatype Delivery =
    | Packet(data: seq<byte>)
    | TypedPacket(data: seq<byte>, kind: DataMarker, time: int)

  /** n copies of x. */
  function Repeat(x: byte, n: nat): (r: seq<byte>)
    ensures |r| == n && forall i :: 0 <= i < n ==> r[i] == x
  {
    seq(n, _ => x)
  }

  lemma RepeatAdd(x: byte, m: nat, n: nat)
    ensures Repeat(x, m) + Repeat(x, n) == Repeat(x, m + n)
  {
    assert Repeat(x, m) + Repeat(x, n) == Repeat(x, m + n);
  }

  /** The n bytes a reader positioned at at in stream v obtains one avio_r8 at a
      time: a read past the end yields 0. */
  function Lookahead(v: seq<byte>, at: nat, n: nat): (r: seq<byte>)
    ensures |r| == n
  {
    seq(n, i requires 0 <= i < n => if at + i < |v| then v[at + i] else 0)
  }

  /** Where such a reader stands after n reads: it does not move past the end. */
  function Advance(v: seq<byte>, at: nat, n: nat): nat
  {
    if at + n <= |v| then at + n else if at <= |v| then |v| else at
  }

  /** One more read extends the bytes obtained by the byte at the new position. */
  lemma LookaheadStep(v: seq<byte>, at: nat, c: nat)
    requires at <= |v|
    ensures Lookahead(v, at, c + 1) == Lookahead(v, at, c) + Lookahead(v, Advance(v, at, c), 1)
    ensures Advance(v, Advance(v, at, c), 1) == Advance(v, at, c + 1)
    ensures Advance(v, at, c) <= |v|
  {
  }

  /** Byte i of n read from at is the one a single read from where the first i
      left the reader obtains. */
  lemma LookaheadAt(v: seq<byte>, at: nat, n: nat, i: nat)
    requires at <= |v| && i < n
    ensures Lookahead(v, at, n)[i] == Lookahead(v, Advance(v, at, i), 1)[0]
    ensures Advance(v, Advance(v, at, i), 1) == Advance(v, at, i + 1)
  {
  }

  /** Reading n then m bytes is reading n + m bytes. */
  lemma {:induction false} LookaheadSplit(v: seq<byte>, at: nat, n: nat, m: nat)
    requires at <= |v|
    ensures Lookahead(v, at, n + m) == Lookahead(v, at, n) + Lookahead(v, Advance(v, at, n), m)
    ensures Advance(v, Advance(v, at, n), m) == Advance(v, at, n + m)
    decreases m
  {
    if m > 0 {
      LookaheadSplit(v, at, n, m - 1);
      LookaheadStep(v, at, n + m - 1);
      LookaheadStep(v, Advance(v, at, n), m - 1);
      assert Lookahead(v, at, n + m) == Lookahead(v, at, n + m - 1) + Lookahead(v, Advance(v, at, n + m - 1), 1);
    }
  }

  /** The stream after ffio_rewind_with_probe_data on stream v read up to pos:
      probe, then v from wherever probe or pos ends, whichever is later. Probe
      data that is the true start of a stream read at least that far changes
      nothing. */
  function Spliced(probe: seq<byte>, v: seq<byte>, pos: int): (r: seq<byte>)
    requires 0 <= pos <= |v|
    ensures |r| == Max(pos, |probe|) + |v| - pos
    ensures forall i :: 0 <= i < |probe| ==> r[i] == probe[i]
    ensures forall k :: |probe| <= k < |r| ==> r[k] == v[k - Max(pos, |probe|) + pos]
    ensures |probe| <= pos && probe == v[..|probe|] ==> r == v
  {
    assert |probe| <= pos && probe == v[..|probe|] ==> probe + v[|probe|..] == v;
    probe + v[Min(|probe|, pos)..]
  }

  /** The int whence with the AVSEEK_FORCE bit (bit 17) cleared, read as an
      unsigned 32-bit value. */
  function WhenceMode(whence: int): (r: int)
    ensures 0 <= r < TWO_32
    ensures 0 <= whence < AVSEEK_FORCE ==> r == whence
    ensures r / AVSEEK_FORCE % 2 == 0
  {
    var u := whence % TWO_32;
    if u / AVSEEK_FORCE % 2 == 1 then u - AVSEEK_FORCE else u
  }

  class IOContext {
    // the buffer window
    var buffer: array<byte>
    var bufferSize: int
    var bufPtr: int
    var bufEnd: int
    var pos: int
    var written: int
    var mustFlush: bool
    var eofReached: bool
    var error: int
    var maxPacketSize: int
    var currentType: DataMarker
    var lastTime: int
    var ignoreBoundaryPoint: bool

    // fixed when the context is set up
    const writeFlag: bool
    const seekable: bool
    const writer: Writer
    const seeker: Seeker
    const hasReader: bool

    // opaque: the state behind the callbacks
    const input: seq<byte>
    const srcStatus: int
    var srcPos: int
    const dyn: DynBuffer

    /** The whole stream a read context reads, as far as it is known: the bytes
        before the window start, the window, and what the source has still to give. */
    ghost var View: seq<byte>
    /** Every byte flush_buffer has taken out of a write context's buffer. */
    ghost var Flushed: seq<byte>
    /** The write callback's calls, and the bytes they carried. */
    ghost var Sent: seq<Delivery>
    ghost var SentBytes: seq<byte>

    /** The context is consistent, and a write context's buffer has room. */
    ghost predicate Valid()
      reads this, buffer, dyn, dyn.buffer
    {
      Inv() && (writeFlag ==> bufPtr < bufEnd)
    }

    /** The context is consistent; a write context's buffer may be full (inside
        avio_w8, avio_write and ffio_fill, just before the flush). */
    ghost predicate Inv()
      reads this, buffer, dyn, dyn.buffer
    {
      && buffer != dyn.buffer
      && dyn.Valid()
      && 0 <= bufPtr <= bufEnd <= buffer.Length <= INT_MAX
      && 0 <= bufferSize <= buffer.Length
      && 0 <= maxPacketSize <= INT_MAX
      && seekable == (seeker != NoSeek)
      && (writeFlag ==> WriteValid())
      && (!writeFlag ==> ReadValid())
    }

    /** A write context: the window is the whole buffer and is never full between calls. */
    ghost predicate WriteValid()
      reads this, buffer
    {
      && bufEnd == bufferSize == buffer.Length && 0 < bufferSize
      && 0 <= pos
      && !hasReader
      && (writer != NoWriter && error == 0 ==> SentBytes == Flushed)
    }

    /** A read context: the window holds the stream bytes just before pos, and the
        source still holds the stream after pos. */
    ghost predicate ReadValid()
      reads this, buffer
    {
      && 0 <= bufEnd <= pos && bufEnd <= buffer.Length
      && 0 <= srcPos <= |input|
      && srcStatus <= 0 && error <= 0
      && |View| == pos + |input| - srcPos
      && (forall i :: 0 <= i < bufEnd ==> buffer[i] == View[pos - bufEnd + i])
      && (forall k :: pos <= k < |View| ==> View[k] == input[srcPos + (k - pos)])
      && (eofReached ==> srcPos == |input|)
      && (!hasReader ==> srcPos == |input|)
      && (hasReader ==> bufferSize > 0)
      && !mustFlush
      && seeker != DynSeek
    }

    /** avio_tell: the position of the next byte read or written. */
    function Tell(): (r: int)
      reads this
      ensures !writeFlag && 0 <= bufPtr <= bufEnd ==> pos - bufEnd <= r <= pos
      ensures writeFlag && 0 <= bufPtr ==> pos <= r
    {
      (if writeFlag then pos else pos - bufEnd) + bufPtr
    }

    /** Everything written to a write context: what was flushed, then what is pending. */
    ghost function Output(): seq<byte>
      reads this, buffer
      requires 0 <= bufPtr <= buffer.Length
    {
      Flushed + buffer[..bufPtr]
    }

    /** The call flush_buffer makes for chunk. */
    ghost function Delivered(chunk: seq<byte>): Delivery
      reads this
    {
      if writer == DataTypeCallback then TypedPacket(chunk, currentType, lastTime) else Packet(chunk)
    }

    /** A dynamic buffer that has received exactly the flushed bytes. */
    ghost predicate DynInSync()
      reads this, dyn, dyn.buffer
    {
      writer == DynWrite && error == 0 && SyncedWith(dyn.State(), Flushed)
    }

    /** st is positioned at the end of its data, which starts with exactly flushed. */
    static ghost predicate SyncedWith(st: DynState, flushed: seq<byte>)
    {
      st.pos == st.size == |flushed| <= |st.data| && st.data[..|flushed|] == flushed
    }

    /** A null buffer that has counted exactly the flushed bytes. */
    ghost predicate CountInSync()
      reads this, dyn
    {
      writer == NullWrite && error == 0 && dyn.pos == dyn.size == |Flushed|
    }

    /** ffio_init_context on a buffer holding contents. A read context without a
        read callback serves contents itself. */
    constructor Init(contents: seq<byte>, writeFlag: bool, writer: Writer, seeker: Seeker,
                     hasReader: bool, input: seq<byte>, srcStatus: int)
      requires |contents| <= INT_MAX && srcStatus <= 0
      requires writeFlag ==> 0 < |contents| && !hasReader
      requires !writeFlag ==> seeker != DynSeek && (hasReader ==> 0 < |contents|) && (!hasReader ==> input == [])
      ensures Valid() && fresh(buffer) && fresh(dyn) && fresh(dyn.buffer)
      ensures this.writeFlag == writeFlag && this.writer == writer && this.seeker == seeker
      ensures this.hasReader == hasReader && this.input == input && this.srcStatus == srcStatus
      ensures buffer[..] == contents && bufferSize == |contents| && bufPtr == 0
      ensures bufEnd == (if writeFlag then |contents| else if hasReader then 0 else |contents|)
      ensures pos == (if !writeFlag && !hasReader then |contents| else 0)
      ensures !mustFlush && !eofReached && error == 0 && written == 0 && maxPacketSize == 0
      ensures currentType == Unknown && lastTime == AV_NOPTS_VALUE && !ignoreBoundaryPoint
      ensures !writeFlag ==> View == (if hasReader then input else contents)
      ensures Flushed == [] && Sent == [] && SentBytes == [] && dyn.State() == DynState(0, 0, [])
    {
      var b := new byte[|contents|](i requires 0 <= i < |contents| => contents[i]);
      assert b[..] == contents;
      var d := new DynBuffer();
      buffer := b;
      bufferSize := |contents|;
      bufPtr := 0;
      bufEnd := if writeFlag || !hasReader then |contents| else 0;
      this.writeFlag := writeFlag;
      this.writer := writer;
      this.seeker := seeker;
      pos := if !writeFlag && !hasReader then |contents| else 0;
      written := 0;
      mustFlush := false;
      eofReached := false;
      error := 0;
      seekable := seeker != NoSeek;
      maxPacketSize := 0;
      ignoreBoundaryPoint := false;
      currentType := Unknown;
      lastTime := AV_NOPTS_VALUE;
      this.hasReader := hasReader;
      this.input := input;
      this.srcStatus := srcStatus;
      srcPos := 0;
      dyn := d;
      View := if hasReader then input else contents;
      Flushed := [];
      Sent := [];
      SentBytes := [];
    }

    // -----------------------------------------------------------------------
    // Output

    /** The write_data_type or write_packet call of flush_buffer. An unknown sink
        takes the whole packet or fails with a negative error code. */
    method Emit(chunk: seq<byte>, ghost flushed: seq<byte>) returns (ret: int)
      requires dyn.Valid() && |chunk| <= INT_MAX
      modifies this`Sent, this`SentBytes, dyn, dyn.buffer
      ensures dyn.Valid() && (dyn.buffer == old(dyn.buffer) || fresh(dyn.buffer))
      ensures writer == NoWriter ==> SentBytes == old(SentBytes)
      ensures writer != NoWriter ==> SentBytes == old(SentBytes) + chunk
      ensures writer == DynWrite && old(SyncedWith(dyn.State(), flushed)) && |flushed| + |chunk| <= INT_MAX / 2 ==>
        ret == |chunk| && SyncedWith(dyn.State(), flushed + chunk)
      ensures writer == NullWrite && old(dyn.pos == dyn.size == |flushed|) ==> dyn.pos == dyn.size == |flushed + chunk|
      ensures writer == NoWriter ==> ret == 0 && Sent == old(Sent)
      ensures writer != NoWriter ==> Sent == old(Sent) + [Delivered(chunk)]
      ensures writer == PacketCallback || writer == DataTypeCallback ==> ret == |chunk| || ret < 0
      ensures writer == NullWrite ==> ret == |chunk|
      ensures writer != DynWrite && writer != DynPacketWrite && writer != NullWrite ==>
        dyn.State() == old(dyn.State()) && dyn.buffer == old(dyn.buffer)
    {
      match writer {
      case NoWriter =>
        ret := 0;
      case PacketCallback =>
        var accepted: bool :| true;
        if accepted {
          ret := |chunk|;
        } else {
          ret :| ret < 0;
        }
      case DataTypeCallback =>
        var accepted: bool :| true;
        if accepted {
          ret := |chunk|;
        } else {
          ret :| ret < 0;
        }
      case DynWrite =>
        ghost var before := dyn.State();
        ret := dyn.Write(chunk);
        if SyncedWith(before, flushed) && |flushed| + |chunk| <= INT_MAX / 2 {
          DynAppend(before, dyn.State(), flushed, chunk);
        }
      case DynPacketWrite =>
        ret := dyn.PacketWrite(chunk);
      case NullWrite =>
        ret := dyn.NullWrite(|chunk|);
      }
      if writer != NoWriter {
        Sent := Sent + [Delivered(chunk)];
        SentBytes := SentBytes + chunk;
      }
    }

    /** The append of a dynamic buffer that has seen exactly the flushed bytes. */
    static lemma DynAppend(st: DynState, st': DynState, flushed: seq<byte>, chunk: seq<byte>)
      requires SyncedWith(st, flushed)
      requires st'.pos == st.pos + |chunk| && st'.size == Max(st.size, st'.pos) && |st'.data| >= st'.pos
      requires st'.data[st.pos..st'.pos] == chunk && Kept(st.data, st'.data, st.pos, st'.pos)
      ensures SyncedWith(st', flushed + chunk)
    {
      assert st'.data[..|flushed|] == st.data[..|flushed|];
      assert st'.data[..st'.pos] == st'.data[..|flushed|] + st'.data[|flushed|..st'.pos];
    }

    /** The sink's part of the buf_ptr > buffer branch of flush_buffer: unless an
        error is pending, one call of the write callback with buffer[0..buf_ptr);
        a failure is kept in error. */
    method Deliver()
      requires Inv() && writeFlag && 0 < bufPtr
      modifies this`Sent, this`SentBytes, this`error, this`written, this`Flushed, dyn, dyn.buffer
      ensures Inv() && (dyn.buffer == old(dyn.buffer) || fresh(dyn.buffer))
      ensures Flushed == old(Output())
      ensures old(error) == 0 && writer != NoWriter ==> Sent == old(Sent) + [old(Delivered(buffer[..bufPtr]))]
      ensures old(error) != 0 || writer == NoWriter ==> Sent == old(Sent)
      ensures old(error) != 0 ==> error == old(error)
      ensures error == old(error) || (old(error) == 0 && error < 0)
      ensures written == (if old(error) == 0 && error == 0 then Max(old(written), pos + bufPtr) else old(written))
      ensures old(DynInSync()) && |old(Output())| <= INT_MAX / 2 ==> DynInSync()
      ensures old(CountInSync()) ==> CountInSync()
    {
      var size := bufPtr;
      var chunk := buffer[..size];
      if error == 0 {
        var ret := Emit(chunk, Flushed);
        if ret < 0 {
          error := ret;
        } else if pos + size > written {
          written := pos + size;
        }
      }
      Flushed := Flushed + chunk;
    }

    /** flush_buffer: hand buffer[0..buf_ptr) to the sink unless an error is
        pending, advance pos past it and empty the buffer. */
    method FlushBuffer()
      requires Inv() && writeFlag
      modifies this`bufPtr, this`pos, this`error, this`written, this`currentType, this`lastTime,
              this`Flushed, this`Sent, this`SentBytes, dyn, dyn.buffer
      ensures Valid() && (dyn.buffer == old(dyn.buffer) || fresh(dyn.buffer))
      ensures bufPtr == 0
      ensures pos == old(pos) + old(bufPtr)
      ensures Flushed == old(Output()) && Output() == old(Output())
      ensures old(bufPtr) > 0 && old(error) == 0 && writer != NoWriter ==>
        Sent == old(Sent) + [old(Delivered(buffer[..bufPtr]))]
      ensures old(bufPtr) == 0 || old(error) != 0 || writer == NoWriter ==> Sent == old(Sent)
      ensures old(error) != 0 ==> error == old(error)
      ensures error == old(error) || (old(error) == 0 && error < 0)
      ensures written == (if old(bufPtr) > 0 && old(error) == 0 && error == 0
                          then Max(old(written), old(pos) + old(bufPtr)) else old(written))
      ensures old(bufPtr) == 0 ==>
        && error == old(error) && currentType == old(currentType) && lastTime == old(lastTime)
        && dyn.State() == old(dyn.State())
      ensures old(bufPtr) > 0 ==>
        && currentType == (if old(currentType) == SyncPoint || old(currentType) == BoundaryPoint
                           then Unknown else old(currentType))
        && lastTime == AV_NOPTS_VALUE
      ensures old(DynInSync()) && |old(Output())| <= INT_MAX / 2 ==> DynInSync()
      ensures old(CountInSync()) ==> CountInSync()
    {
      if bufPtr > 0 {
        FlushPending();
      }
      bufPtr := 0;
    }

    /** The buf_ptr > buffer branch of flush_buffer. */
    method FlushPending()
      requires Inv() && writeFlag && bufPtr > 0
      modifies this`bufPtr, this`pos, this`error, this`written, this`currentType, this`lastTime,
              this`Flushed, this`Sent, this`SentBytes, dyn, dyn.buffer
      ensures Valid() && (dyn.buffer == old(dyn.buffer) || fresh(dyn.buffer))
      ensures bufPtr == 0
      ensures pos == old(pos) + old(bufPtr)
      ensures Flushed == old(Output())
      ensures old(error) == 0 && writer != NoWriter ==> Sent == old(Sent) + [old(Delivered(buffer[..bufPtr]))]
      ensures old(error) != 0 || writer == NoWriter ==> Sent == old(Sent)
      ensures old(error) != 0 ==> error == old(error)
      ensures error == old(error) || (old(error) == 0 && error < 0)
      ensures written == (if old(error) == 0 && error == 0 then Max(old(written), old(pos) + old(bufPtr)) else old(written))
      ensures currentType == (if old(currentType) == SyncPoint || old(currentType) == BoundaryPoint
                              then Unknown else old(currentType))
      ensures lastTime == AV_NOPTS_VALUE
      ensures old(DynInSync()) && |old(Output())| <= INT_MAX / 2 ==> DynInSync()
      ensures old(CountInSync()) ==> CountInSync()
    {
      var size := bufPtr;
      Deliver();
      if currentType == SyncPoint || currentType == BoundaryPoint {
        currentType := Unknown;
      }
      lastTime := AV_NOPTS_VALUE;
      pos := pos + size;
      bufPtr := 0;
    }

    /** avio_w8: store the low byte of b; a full buffer is flushed at once. */
    method W8(b: int)
      requires Valid() && writeFlag
      modifies this`bufPtr, this`pos, this`error, this`written, this`currentType, this`lastTime,
              this`Flushed, this`Sent, this`SentBytes, buffer, dyn, dyn.buffer
      ensures Valid() && (dyn.buffer == old(dyn.buffer) || fresh(dyn.buffer))
      ensures Output() == old(Output()) + [b % 256]
      ensures Tell() == old(Tell()) + 1
      ensures old(error) != 0 ==> error == old(error) && Sent == old(Sent)
      ensures old(DynInSync()) && |old(Output())| + 1 <= INT_MAX / 2 ==> DynInSync()
      ensures old(CountInSync()) ==> CountInSync()
    {
      buffer[bufPtr] := b % 256;
      bufPtr := bufPtr + 1;
      assert Output() == old(Output()) + [b % 256] by {
        assert buffer[..bufPtr] == old(buffer[..bufPtr]) + [b % 256];
      }
      if bufPtr >= bufEnd {
        FlushBuffer();
      }
    }

    /** memcpy / memset into the buffer at buf_ptr. */
    method Store(part: seq<byte>)
      requires Inv() && writeFlag && bufPtr + |part| <= bufEnd
      modifies buffer
      ensures Inv()
      ensures buffer[..old(bufPtr) + |part|] == old(buffer[..bufPtr]) + part
    {
      forall i | 0 <= i < |part| {
        buffer[bufPtr + i] := part[i];
      }
      assert buffer[..bufPtr + |part|] == old(buffer[..bufPtr]) + part;
    }

    /** One step of avio_write / ffio_fill: copy part to buf_ptr and flush the
        buffer if that filled it. */
    method Put(part: seq<byte>)
      requires Valid() && writeFlag && bufPtr + |part| <= bufEnd
      modifies this`bufPtr, this`pos, this`error, this`written, this`currentType, this`lastTime,
              this`Flushed, this`Sent, this`SentBytes, buffer, dyn, dyn.buffer
      ensures Valid() && (dyn.buffer == old(dyn.buffer) || fresh(dyn.buffer))
      ensures Output() == old(Output()) + part
      ensures Tell() == old(Tell()) + |part|
      ensures old(error) != 0 ==> error == old(error) && Sent == old(Sent)
      ensures old(DynInSync()) && |old(Output())| + |part| <= INT_MAX / 2 ==> DynInSync()
      ensures old(CountInSync()) ==> CountInSync()
    {
      Store(part);
      bufPtr := bufPtr + |part|;
      if bufPtr >= bufEnd {
        FlushBuffer();
      }
    }

    /** avio_write: copy data into the buffer a window at a time, flushing each
        time it fills. */
    method Write(data: seq<byte>)
      requires Valid() && writeFlag
      modifies this`bufPtr, this`pos, this`error, this`written, this`currentType, this`lastTime,
              this`Flushed, this`Sent, this`SentBytes, buffer, dyn, dyn.buffer
      ensures Valid() && (dyn.buffer == old(dyn.buffer) || fresh(dyn.buffer))
      ensures Output() == old(Output()) + data
      ensures Tell() == old(Tell()) + |data|
      ensures old(error) != 0 ==> error == old(error) && Sent == old(Sent)
      ensures old(DynInSync()) && |old(Output())| + |data| <= INT_MAX / 2 ==> DynInSync()
      ensures old(CountInSync()) ==> CountInSync()
    {
      var done := 0;
      while done < |data|
        invariant 0 <= done <= |data|
        invariant Valid() && (dyn.buffer == old(dyn.buffer) || fresh(dyn.buffer))
        invariant Output() == old(Output()) + data[..done]
        invariant Tell() == old(Tell()) + done
        invariant old(error) != 0 ==> error == old(error) && Sent == old(Sent)
        invariant old(DynInSync()) && |old(Output())| + |data| <= INT_MAX / 2 ==> DynInSync()
        invariant old(CountInSync()) ==> CountInSync()
      {
        var len := Min(bufEnd - bufPtr, |data| - done);
        Put(data[done..done + len]);
        assert data[..done + len] == data[..done] + data[done..done + len];
        done := done + len;
      }
    }

    /** ffio_fill: count copies of the low byte of b. */
    method Fill(b: int, count: int)
      requires Valid() && writeFlag
      modifies this`bufPtr, this`pos, this`error, this`written, this`currentType, this`lastTime,
              this`Flushed, this`Sent, this`SentBytes, buffer, dyn, dyn.buffer
      ensures Valid() && (dyn.buffer == old(dyn.buffer) || fresh(dyn.buffer))
      ensures Output() == old(Output()) + Repeat(b % 256, Max(count, 0))
      ensures Tell() == old(Tell()) + Max(count, 0)
      ensures old(error) != 0 ==> error == old(error) && Sent == old(Sent)
      ensures old(DynInSync()) && |old(Output())| + Max(count, 0) <= INT_MAX / 2 ==> DynInSync()
      ensures old(CountInSync()) ==> CountInSync()
    {
      var left := count;
      ghost var n := Max(count, 0);
      ghost var done := 0;
      while left > 0
        invariant 0 <= done <= n && (left > 0 ==> done + left == n) && (left <= 0 ==> done == n)
        invariant Valid() && (dyn.buffer == old(dyn.buffer) || fresh(dyn.buffer))
        invariant Output() == old(Output()) + Repeat(b % 256, done)
        invariant Tell() == old(Tell()) + done
        invariant old(error) != 0 ==> error == old(error) && Sent == old(Sent)
        invariant old(DynInSync()) && |old(Output())| + n <= INT_MAX / 2 ==> DynInSync()
        invariant old(CountInSync()) ==> CountInSync()
      {
        var len := Min(bufEnd - bufPtr, left);
        Put(Repeat(b % 256, len));
        RepeatAdd(b % 256, done, len);
        left := left - len;
        done := done + len;
      }
    }

    /** avio_flush. */
    method Flush()
      requires Valid() && writeFlag
      modifies this`bufPtr, this`pos, this`error, this`written, this`currentType, this`lastTime, this`mustFlush,
              this`Flushed, this`Sent, this`SentBytes, dyn, dyn.buffer
      ensures Valid() && (dyn.buffer == old(dyn.buffer) || fresh(dyn.buffer))
      ensures bufPtr == 0 && !mustFlush && pos == old(pos) + old(bufPtr) && Tell() == old(Tell())
      ensures Flushed == old(Output()) && Output() == old(Output())
      ensures old(bufPtr) > 0 && old(error) == 0 && writer != NoWriter ==>
        Sent == old(Sent) + [old(Delivered(buffer[..bufPtr]))]
      ensures old(bufPtr) == 0 || old(error) != 0 || writer == NoWriter ==> Sent == old(Sent)
      ensures old(error) != 0 ==> error == old(error)
      ensures error == old(error) || (old(error) == 0 && error < 0)
      ensures written == (if old(bufPtr) > 0 && old(error) == 0 && error == 0
                          then Max(old(written), old(pos) + old(bufPtr)) else old(written))
      ensures old(bufPtr) == 0 ==>
        && error == old(error) && currentType == old(currentType) && lastTime == old(lastTime)
        && dyn.State() == old(dyn.State())
      ensures old(bufPtr) > 0 ==>
        && currentType == (if old(currentType) == SyncPoint || old(currentType) == BoundaryPoint
                           then Unknown else old(currentType))
        && lastTime == AV_NOPTS_VALUE
      ensures old(DynInSync()) && |old(Output())| <= INT_MAX / 2 ==> DynInSync()
      ensures old(CountInSync()) ==> CountInSync()
    {
      FlushBuffer();
      mustFlush := false;
    }

    /** The marker avio_write_marker acts on: a boundary point counts as unknown
        when boundary points are ignored. */
    function MarkerKind(kind: DataMarker): (k: DataMarker)
      reads this
      ensures k == kind || (kind == BoundaryPoint && ignoreBoundaryPoint && k == Unknown)
    {
      if kind == BoundaryPoint && ignoreBoundaryPoint then Unknown else kind
    }

    /** Whether avio_write_marker starts a new packet for kind: there is a
        write_data_type callback, the marker is not an unknown following data that
        is neither header nor trailer, and it is not a repeated header or trailer. */
    ghost predicate MarkerStarts(kind: DataMarker)
      reads this
    {
      var k := MarkerKind(kind);
      && writer == DataTypeCallback
      && !(k == Unknown && currentType != Header && currentType != Trailer)
      && !((k == Header || k == Trailer) && k == currentType)
    }

    /** avio_write_marker: with a write_data_type callback, start a new packet
        when the kind of data changes in a way the sink cares about. The pending
        bytes go out tagged with the previous kind and time. */
    method WriteMarker(time: int, kind: DataMarker)
      requires Valid() && writeFlag
      modifies this`bufPtr, this`pos, this`error, this`written, this`currentType, this`lastTime, this`mustFlush,
              this`Flushed, this`Sent, this`SentBytes, dyn, dyn.buffer
      ensures Valid() && (dyn.buffer == old(dyn.buffer) || fresh(dyn.buffer))
      ensures Output() == old(Output()) && Tell() == old(Tell())
      ensures old(error) != 0 ==> error == old(error) && Sent == old(Sent)
      ensures error == old(error) || (old(error) == 0 && error < 0)
      ensures old(DynInSync()) ==> DynInSync()
      ensures old(CountInSync()) ==> CountInSync()
      ensures old(MarkerStarts(kind)) ==>
        && bufPtr == 0 && Flushed == old(Output()) && !mustFlush
        && currentType == old(MarkerKind(kind)) && lastTime == time
      ensures old(MarkerStarts(kind)) && old(bufPtr) > 0 && old(error) == 0 ==>
        Sent == old(Sent) + [TypedPacket(old(buffer[..bufPtr]), old(currentType), old(lastTime))]
      ensures old(MarkerStarts(kind)) && (old(bufPtr) == 0 || old(error) != 0) ==> Sent == old(Sent)
      ensures old(MarkerStarts(kind)) ==>
        written == (if old(bufPtr) > 0 && old(error) == 0 && error == 0
                    then Max(old(written), old(pos) + old(bufPtr)) else old(written))
      ensures !old(MarkerStarts(kind)) ==>
        && bufPtr == old(bufPtr) && pos == old(pos) && Flushed == old(Flushed)
        && error == old(error) && written == old(written) && Sent == old(Sent) && SentBytes == old(SentBytes)
        && currentType == old(currentType) && lastTime == old(lastTime) && mustFlush == old(mustFlush)
        && dyn.buffer == old(dyn.buffer) && dyn.State() == old(dyn.State())
    {
      if writer != DataTypeCallback {
        return;
      }
      var k := MarkerKind(kind);
      if k == Unknown && currentType != Header && currentType != Trailer {
        return;
      }
      if (k == Header || k == Trailer) && k == currentType {
        return;
      }
      StartMarker(k, time);
    }

    /** The tail of avio_write_marker once a new packet starts: flush what is
        pending under the previous kind and time, then record k and time. */
    method StartMarker(k: DataMarker, time: int)
      requires Valid() && writeFlag && writer == DataTypeCallback
      modifies this`bufPtr, this`pos, this`error, this`written, this`currentType, this`lastTime, this`mustFlush,
              this`Flushed, this`Sent, this`SentBytes, dyn, dyn.buffer
      ensures Valid() && (dyn.buffer == old(dyn.buffer) || fresh(dyn.buffer))
      ensures Output() == old(Output()) && Tell() == old(Tell())
      ensures bufPtr == 0 && Flushed == old(Output()) && !mustFlush && currentType == k && lastTime == time
      ensures old(error) != 0 ==> error == old(error)
      ensures error == old(error) || (old(error) == 0 && error < 0)
      ensures old(bufPtr) > 0 && old(error) == 0 ==>
        Sent == old(Sent) + [TypedPacket(old(buffer[..bufPtr]), old(currentType), old(lastTime))]
      ensures old(bufPtr) == 0 || old(error) != 0 ==> Sent == old(Sent)
      ensures written == (if old(bufPtr) > 0 && old(error) == 0 && error == 0
                          then Max(old(written), old(pos) + old(bufPtr)) else old(written))
    {
      Flush();
      currentType := k;
      lastTime := time;
    }

    // -----------------------------------------------------------------------
    // Input

    /** read_packet(opaque, buffer + dst, buffer_size - dst) on a source that still
        has bytes: between one and buffer_size - dst of them land at dst, pos moves
        past them and the window becomes buffer[dst..dst + len). */
    method ReadChunk(dst: int)
      requires Inv() && !writeFlag && hasReader && srcPos < |input|
      requires (dst == 0 || dst == bufEnd) && dst < bufferSize
      modifies this`bufPtr, this`bufEnd, this`pos, this`srcPos, buffer
      ensures Inv()
      ensures srcPos > old(srcPos) && pos == old(pos) + (srcPos - old(srcPos))
      ensures bufPtr == dst && bufEnd == dst + (srcPos - old(srcPos))
    {
      var len: int :| 0 < len <= bufferSize - dst && len <= |input| - srcPos;
      forall i | 0 <= i < len {
        buffer[dst + i] := input[srcPos + i];
      }
      pos := pos + len;
      srcPos := srcPos + len;
      bufPtr := dst;
      bufEnd := dst + len;
      forall i | 0 <= i < bufEnd
        ensures buffer[i] == View[pos - bufEnd + i]
      {
        if i >= dst {
          assert View[old(pos) + (i - dst)] == input[old(srcPos) + (i - dst)];
        }
      }
      forall k | pos <= k < |View|
        ensures View[k] == input[srcPos + (k - pos)]
      {
        assert View[old(pos) + (k - old(pos))] == input[old(srcPos) + (k - old(pos))];
      }
    }

    /** A read_packet call that returns status <= 0: eof_reached is set, a negative
        status is kept in error, and the buffer is left as it was. */
    method Exhausted(status: int)
      requires Inv() && !writeFlag && srcPos == |input| && status <= 0
      modifies this`eofReached, this`error
      ensures Inv() && eofReached
      ensures error == (if status < 0 then status else old(error))
    {
      eofReached := true;
      if status < 0 {
        error := status;
      }
    }

    /** The read_packet call of fill_buffer (no call, and a length of 0, without a
        read callback). New bytes extend the window when dst is buf_end and replace
        it when dst is 0. */
    method Refill(dst: int)
      requires Inv() && !writeFlag
      requires (dst == 0 || dst == bufEnd) && (hasReader ==> dst < bufferSize)
      modifies this`bufPtr, this`bufEnd, this`pos, this`eofReached, this`error, this`srcPos, buffer
      ensures Inv()
      ensures srcPos >= old(srcPos) && pos == old(pos) + (srcPos - old(srcPos))
      ensures srcPos > old(srcPos) ==> bufPtr == dst && bufEnd == dst + (srcPos - old(srcPos)) && eofReached == old(eofReached)
      ensures srcPos == old(srcPos) ==> bufPtr == old(bufPtr) && bufEnd == old(bufEnd) && eofReached
      ensures old(srcPos) < |input| ==> srcPos > old(srcPos)
      ensures error == old(error) || error == srcStatus
    {
      if hasReader && srcPos < |input| {
        ReadChunk(dst);
      } else {
        Exhausted(if hasReader then srcStatus else 0);
      }
    }

    /** ffio_set_buf_size in a read context: a fresh buffer of n bytes and an
        empty window (allocation is taken to succeed). */
    method SetBufSize(n: int)
      requires Inv() && !writeFlag && 0 < n <= INT_MAX
      modifies this`buffer, this`bufferSize, this`bufPtr, this`bufEnd
      ensures Inv() && fresh(buffer) && bufferSize == n == buffer.Length
      ensures bufPtr == 0 && bufEnd == 0
    {
      buffer := new byte[n];
      bufferSize := n;
      bufPtr := 0;
      bufEnd := 0;
    }

    /** fill_buffer: fetch more bytes from the source unless it is known to be
        exhausted. A call on an empty window keeps the read position, and leaves the
        window empty only when the stream has nothing at that position. */
    method FillBuffer()
      requires Inv() && !writeFlag
      modifies this`bufPtr, this`bufEnd, this`pos, this`eofReached, this`error, this`srcPos,
               this`buffer, this`bufferSize, buffer
      ensures Inv() && (buffer == old(buffer) || fresh(buffer))
      ensures srcPos >= old(srcPos) && pos == old(pos) + (srcPos - old(srcPos))
      ensures srcPos > old(srcPos) || eofReached
      ensures old(eofReached) ==> eofReached && pos == old(pos) && bufPtr == old(bufPtr) && bufEnd == old(bufEnd)
      ensures pos - bufEnd == old(pos - bufEnd) || pos - bufEnd == old(pos)
      ensures old(bufPtr == bufEnd) ==> Tell() == old(Tell()) && (bufPtr < bufEnd <==> old(Tell()) < |View|)
      ensures bufPtr < bufEnd || eofReached
      ensures eofReached ==> old(eofReached) || old(srcPos) == |input|
      ensures error == old(error) || error == srcStatus
    {
      var dst := if maxPacketSize == 0 && bufEnd < bufferSize then bufEnd else 0;
      if !hasReader && bufPtr >= bufEnd {
        eofReached := true;
      }
      if eofReached {
        return;
      }
      Fetch(dst);
    }

    /** fill_buffer past its eof test: shrink a buffer that probing left larger
        than the packet size (or IO_BUFFER_SIZE), then call read_packet. */
    method Fetch(dst: int)
      requires Inv() && !writeFlag && !eofReached && (hasReader || bufPtr < bufEnd)
      requires dst == (if maxPacketSize == 0 && bufEnd < bufferSize then bufEnd else 0)
      modifies this`bufPtr, this`bufEnd, this`pos, this`eofReached, this`error, this`srcPos,
               this`buffer, this`bufferSize, buffer
      ensures Inv() && (buffer == old(buffer) || fresh(buffer))
      ensures srcPos >= old(srcPos) && pos == old(pos) + (srcPos - old(srcPos))
      ensures srcPos > old(srcPos) || eofReached
      ensures pos - bufEnd == old(pos - bufEnd) || pos - bufEnd == old(pos)
      ensures old(bufPtr == bufEnd) ==> Tell() == old(Tell()) && (bufPtr < bufEnd <==> old(Tell()) < |View|)
      ensures bufPtr < bufEnd || eofReached
      ensures eofReached ==> old(srcPos) == |input|
      ensures error == old(error) || error == srcStatus
    {
      var maxBufferSize := if maxPacketSize != 0 then maxPacketSize else IO_BUFFER_SIZE;
      if bufferSize > maxBufferSize {
        SetBufSize(maxBufferSize);
        Refill(0);
      } else {
        Refill(dst);
      }
    }

    /** The bytes a read context frames: the window holds buffer[0..buf_end) at stream
        offset pos - buf_end. */
    method CopyOut(buf: array<byte>, at: int, len: int, ghost base: int)
      requires Inv() && !writeFlag && buf != buffer
      requires 0 < len <= bufEnd - bufPtr && 0 <= at && at + len <= buf.Length && Tell() == base + at
      modifies buf, this`bufPtr
      ensures Inv() && bufPtr == old(bufPtr) + len
      ensures forall i :: at <= i < at + len ==> buf[i] == View[base + i]
      ensures forall i :: 0 <= i < buf.Length && !(at <= i < at + len) ==> buf[i] == old(buf[i])
    {
      forall i | 0 <= i < len {
        buf[at + i] := buffer[bufPtr + i];
      }
      bufPtr := bufPtr + len;
    }

    /** The unbuffered branch of avio_read: with the window empty, read_packet
        writes straight into buf + at, and the window is left empty at the new
        position. A source with nothing left sets eof_reached. */
    method DirectRead(buf: array<byte>, at: int, n: int, ghost base: int) returns (len: int)
      requires Inv() && !writeFlag && buf != buffer && bufPtr == bufEnd
      requires 0 <= at && 0 < n && at + n <= buf.Length && Tell() == base + at
      modifies buf, this`bufPtr, this`bufEnd, this`pos, this`eofReached, this`error, this`srcPos
      ensures Inv()
      ensures len > 0 ==> && len <= n && Tell() == old(Tell()) + len && bufPtr == bufEnd
                          && (forall i :: at <= i < at + len ==> buf[i] == View[base + i])
      ensures len <= 0 ==> eofReached && Tell() == old(Tell()) == |View|
      ensures forall i :: 0 <= i < buf.Length && !(at <= i < at + len) ==> buf[i] == old(buf[i])
      ensures error == old(error) || error == srcStatus
    {
      if hasReader && srcPos < |input| {
        len :| 0 < len <= n && len <= |input| - srcPos;
        SourceInto(buf, at, len);
        forall i | at <= i < at + len
          ensures buf[i] == View[base + i]
        {
          assert View[pos + (i - at)] == input[srcPos + (pos + (i - at) - pos)];
        }
        Consume(len);
      } else {
        len := if hasReader then srcStatus else 0;
        Exhausted(len);
      }
    }

    /** read_packet(opaque, buf, size) on a source that has len bytes for it. */
    method SourceInto(buf: array<byte>, at: int, len: int)
      requires 0 <= at && at + len <= buf.Length && 0 <= srcPos && 0 <= len <= |input| - srcPos
      modifies buf
      ensures forall i :: 0 <= i < buf.Length ==>
        buf[i] == (if at <= i < at + len then input[srcPos + (i - at)] else old(buf[i]))
    {
      forall i | 0 <= i < len {
        buf[at + i] := input[srcPos + i];
      }
    }

    /** The bookkeeping after a direct read of len bytes: pos moves past them and
        the window is reset to the start of the buffer. */
    method Consume(len: int)
      requires Inv() && !writeFlag && bufPtr == bufEnd && 0 < len <= |input| - srcPos
      modifies this`bufPtr, this`bufEnd, this`pos, this`srcPos
      ensures Inv() && pos == old(pos) + len && srcPos == old(srcPos) + len && bufPtr == bufEnd == 0
    {
      pos := pos + len;
      srcPos := srcPos + len;
      bufPtr := 0;
      bufEnd := 0;
      forall k | pos <= k < |View|
        ensures View[k] == input[srcPos + (k - pos)]
      {
        assert View[old(pos) + (k - old(pos))] == input[old(srcPos) + (k - old(pos))];
      }
    }

    /** avio_r8: the next byte of the stream, or 0 once there is none. */
    method R8() returns (b: byte)
      requires Inv() && !writeFlag
      modifies this`bufPtr, this`bufEnd, this`pos, this`eofReached, this`error, this`srcPos,
               this`buffer, this`bufferSize, buffer
      ensures Inv() && (buffer == old(buffer) || fresh(buffer))
      ensures b == Lookahead(View, old(Tell()), 1)[0] && Tell() == Advance(View, old(Tell()), 1)
      ensures old(Tell()) == |View| ==> eofReached
      ensures error == old(error) || error == srcStatus
    {
      if bufPtr >= bufEnd {
        FillBuffer();
      }
      if bufPtr < bufEnd {
        b := buffer[bufPtr];
        bufPtr := bufPtr + 1;
      } else {
        b := 0;
      }
    }

    /** One round of avio_read's loop: copy from the window if it has bytes,
        otherwise read straight into buf when more than a buffer's worth is wanted,
        or refill the buffer. stop is avio_read's break: the stream has ended. */
    method ReadStep(buf: array<byte>, size: int, done: int, ghost t0: int) returns (next: int, stop: bool)
      requires Inv() && !writeFlag && buf != buffer && 0 <= done < size <= buf.Length
      requires 0 <= t0 && Tell() == t0 + done <= |View| && forall i :: 0 <= i < done ==> buf[i] == View[t0 + i]
      modifies buf, this`bufPtr, this`bufEnd, this`pos, this`eofReached, this`error, this`srcPos,
               this`buffer, this`bufferSize, buffer
      ensures Inv() && (buffer == old(buffer) || fresh(buffer))
      ensures done <= next <= size && Tell() == t0 + next <= |View|
      ensures forall i :: 0 <= i < next ==> buf[i] == View[t0 + i]
      ensures forall i :: next <= i < buf.Length ==> buf[i] == old(buf[i])
      ensures stop ==> eofReached && Tell() == |View|
      ensures !stop && next == done ==> old(bufPtr == bufEnd) && bufPtr < bufEnd
      ensures error == old(error) || error == srcStatus
    {
      var len := Min(bufEnd - bufPtr, size - done);
      next, stop := done, false;
      if len == 0 {
        if size - done > bufferSize {
          len := DirectRead(buf, done, size - done, t0);
          if len <= 0 {
            stop := true;
          } else {
            next := done + len;
          }
        } else {
          FillBuffer();
          stop := bufPtr == bufEnd;
        }
      } else {
        CopyOut(buf, done, len, t0);
        next := done + len;
      }
    }

    /** avio_read: size bytes from the stream, or as many as it still has; the
        result counts them, and is the error or AVERROR_EOF when there were none. */
    method Read(buf: array<byte>, size: int) returns (ret: int)
      requires Inv() && !writeFlag && buf != buffer && size <= buf.Length
      modifies buf, this`bufPtr, this`bufEnd, this`pos, this`eofReached, this`error, this`srcPos,
               this`buffer, this`bufferSize, buffer
      ensures Inv() && (buffer == old(buffer) || fresh(buffer))
      ensures var n := Min(Max(size, 0), |View| - old(Tell()));
        && Tell() == old(Tell()) + n
        && (forall i :: 0 <= i < n ==> buf[i] == View[old(Tell()) + i])
        && (forall i :: n <= i < buf.Length ==> buf[i] == old(buf[i]))
        && ret == (if n > 0 then n else if error != 0 then error else if eofReached then AVERROR_EOF else 0)
        && (n < size ==> eofReached)
      ensures error == old(error) || error == srcStatus
    {
      ghost var t0 := Tell();
      var done := 0;
      var stop := false;
      while done < size && !stop
        invariant Inv() && buf != buffer && (buffer == old(buffer) || fresh(buffer))
        invariant 0 <= done <= Max(size, 0) && 0 <= t0 && Tell() == t0 + done <= |View|
        invariant forall i :: 0 <= i < done ==> buf[i] == View[t0 + i]
        invariant forall i :: done <= i < buf.Length ==> buf[i] == old(buf[i])
        invariant stop ==> eofReached && Tell() == |View|
        invariant error == old(error) || error == srcStatus
        decreases size - done, (if stop then 0 else 1), (if bufPtr < bufEnd then 0 else 1)
      {
        done, stop := ReadStep(buf, size, done, t0);
      }
      ret := if done > 0 then done else if error != 0 then error else if eofReached then AVERROR_EOF else 0;
    }

    /** The window reset of avio_read_partial: an exhausted window is moved back
        to the start of the buffer, so that the refill can use all of it. */
    method RewindWindow()
      requires Inv() && !writeFlag && bufPtr == bufEnd
      modifies this`bufPtr, this`bufEnd
      ensures Inv() && bufPtr == 0 && bufEnd == 0 && Tell() == old(Tell())
    {
      bufEnd := 0;
      bufPtr := 0;
    }

    /** avio_read_partial: at most size bytes, taken from what is buffered, refilling
        once if nothing is; -1 for a negative size. */
    method ReadPartial(buf: array<byte>, size: int) returns (ret: int)
      requires Inv() && !writeFlag && buf != buffer && size <= buf.Length
      modifies buf, this`bufPtr, this`bufEnd, this`pos, this`eofReached, this`error, this`srcPos,
               this`buffer, this`bufferSize, buffer
      ensures Inv() && (buffer == old(buffer) || fresh(buffer))
      ensures size < 0 ==> ret == -1 && Tell() == old(Tell())
      ensures var n := Tell() - old(Tell());
        && 0 <= n <= Max(size, 0)
        && (forall i :: 0 <= i < n ==> buf[i] == View[old(Tell()) + i])
        && (forall i :: n <= i < buf.Length ==> buf[i] == old(buf[i]))
        && (size >= 0 ==> ret == (if n > 0 then n else if error != 0 then error else if eofReached then AVERROR_EOF else 0))
        && (size >= 0 && old(bufPtr < bufEnd) ==> n == Min(size, old(bufEnd - bufPtr)))
        && (0 < size && n == 0 ==> old(Tell()) == |View| && eofReached)
      ensures error == old(error) || error == srcStatus
    {
      if size < 0 {
        return -1;
      }
      ghost var t0 := Tell();
      var len := bufEnd - bufPtr;
      if len == 0 {
        RewindWindow();
        FillBuffer();
        len := bufEnd - bufPtr;
      }
      if len > size {
        len := size;
      }
      if len > 0 {
        CopyOut(buf, 0, len, t0);
      }
      ret := if len > 0 then len else if error != 0 then error else if eofReached then AVERROR_EOF else 0;
    }

    /** ffio_read_size: avio_read that insists on size bytes. */
    method ReadSize(buf: array<byte>, size: int) returns (ret: int)
      requires Inv() && !writeFlag && buf != buffer && size <= buf.Length
      modifies buf, this`bufPtr, this`bufEnd, this`pos, this`eofReached, this`error, this`srcPos,
               this`buffer, this`bufferSize, buffer
      ensures Inv() && (buffer == old(buffer) || fresh(buffer))
      ensures ret == size || ret == AVERROR_INVALIDDATA
      ensures 0 < size && old(Tell()) + size <= |View| ==> ret == size
      ensures old(Tell()) + size > |View| ==> ret == AVERROR_INVALIDDATA
      ensures ret == size && size > 0 ==>
        Tell() == old(Tell()) + size && forall i :: 0 <= i < size ==> buf[i] == View[old(Tell()) + i]
    {
      ret := Read(buf, size);
      if ret != size {
        ret := AVERROR_INVALIDDATA;
      }
    }

    /** ffio_read_indirect: size bytes, handed out from the buffer itself when the
        window holds them all, and read into buf otherwise. */
    method ReadIndirect(buf: array<byte>, size: int) returns (ret: int, data: seq<byte>, inPlace: bool)
      requires Inv() && !writeFlag && buf != buffer && 0 <= size <= buf.Length
      modifies buf, this`bufPtr, this`bufEnd, this`pos, this`eofReached, this`error, this`srcPos,
               this`buffer, this`bufferSize, buffer
      ensures Inv()
      ensures inPlace <==> old(bufEnd - bufPtr) >= size
      ensures inPlace ==> ret == size && Tell() == old(Tell()) + size && buf[..] == old(buf[..])
      ensures var n := Min(size, |View| - old(Tell()));
        && |data| == n && Tell() == old(Tell()) + n
        && (forall i :: 0 <= i < n ==> data[i] == View[old(Tell()) + i])
        && ret == (if n > 0 || inPlace then n else if error != 0 then error else if eofReached then AVERROR_EOF else 0)
    {
      if bufEnd - bufPtr >= size {
        data := buffer[bufPtr..bufPtr + size];
        bufPtr := bufPtr + size;
        ret, inPlace := size, true;
      } else {
        var t0 := Tell();
        ret := Read(buf, size);
        data := buf[..Tell() - t0];
        inPlace := false;
      }
    }

    /** ffio_rewind_with_probe_data: probe, the bytes a prober read from the start
        of the stream, becomes the buffer, followed by the part of the window past
        it, and reading starts over at offset 0. Refused with AVERROR(EINVAL) in a
        write context, and when the window starts after the end of probe. */
    method RewindWithProbeData(probe: seq<byte>) returns (ret: int)
      requires Valid() && |probe| <= INT_MAX && pos <= INT_MAX
      modifies this`buffer, this`bufferSize, this`bufPtr, this`bufEnd, this`pos, this`eofReached,
               this`mustFlush, this`View
      ensures Valid()
      ensures ret == 0 || ret == -EINVAL
      ensures ret == -EINVAL <==> old(writeFlag || pos - bufEnd > |probe|)
      ensures ret != 0 ==> unchanged(this)
      ensures ret == 0 ==>
        && fresh(buffer) && bufferSize == Max(old(bufferSize), old(pos))
        && pos == Max(old(pos), |probe|) && bufPtr == 0 && bufEnd == pos && Tell() == 0
        && !eofReached && !mustFlush
        && (forall i :: 0 <= i < |probe| ==> buffer[i] == probe[i])
        && View == old(Spliced(probe, View, pos))
    {
      if writeFlag {
        return -EINVAL;
      }
      if pos - bufEnd > |probe| {
        return -EINVAL;
      }
      var b := Splice(probe, buffer, pos - bufEnd, bufEnd, Max(bufferSize, pos), View);
      InstallProbe(probe, b, Spliced(probe, View, pos));
      ret := 0;
    }

    /** The end of ffio_rewind_with_probe_data: b, holding stream nv from offset 0
        on, becomes a full window ending at Max(pos, |probe|), and nv continues
        with what the source still holds. */
    method InstallProbe(probe: seq<byte>, b: array<byte>, ghost nv: seq<byte>)
      requires Inv() && !writeFlag && pos - bufEnd <= |probe| <= INT_MAX && pos <= INT_MAX
      requires b != dyn.buffer && b.Length == Max(Max(bufferSize, pos), |probe|)
      requires |nv| == Max(pos, |probe|) + |View| - pos
      requires forall i :: 0 <= i < Max(pos, |probe|) ==> b[i] == nv[i]
      requires forall k :: Max(pos, |probe|) <= k < |nv| ==> nv[k] == View[k - Max(pos, |probe|) + pos]
      modifies this`buffer, this`bufferSize, this`bufPtr, this`bufEnd, this`pos, this`eofReached,
               this`mustFlush, this`View
      ensures Valid() && buffer == b && View == nv
      ensures bufferSize == Max(old(bufferSize), old(pos))
      ensures pos == Max(old(pos), |probe|) && bufPtr == 0 && bufEnd == pos && Tell() == 0
      ensures !eofReached && !mustFlush
    {
      var size := Max(pos, |probe|);
      forall k | size <= k < |nv|
        ensures nv[k] == input[srcPos + (k - size)]
      {
        assert nv[k] == View[k - size + pos];
      }
      View := nv;
      buffer := b;
      bufPtr := 0;
      bufferSize := Max(bufferSize, pos);
      pos := size;
      bufEnd := size;
      eofReached := false;
      mustFlush := false;
    }

    /** The buffer ffio_rewind_with_probe_data builds: probe, then the window bytes
        from offset |probe| of the stream on (the overlap is skipped), in an
        allocation of at least allocSize bytes. Given that window holds stream v
        from start on, the result holds the spliced stream from offset 0. */
    static method Splice(probe: seq<byte>, window: array<byte>, start: int, len: int, allocSize: int,
                         ghost v: seq<byte>) returns (b: array<byte>)
      requires 0 <= start <= |probe| && 0 <= len <= window.Length && start + len <= |v|
      requires start + len <= allocSize
      requires forall i :: 0 <= i < len ==> window[i] == v[start + i]
      ensures fresh(b) && b.Length == Max(allocSize, |probe|)
      ensures forall i :: 0 <= i < |probe| ==> b[i] == probe[i]
      ensures forall i :: |probe| <= i < start + len ==> b[i] == window[i - start]
      ensures forall i :: 0 <= i < Max(start + len, |probe|) ==> b[i] == Spliced(probe, v, start + len)[i]
    {
      b := new byte[Max(allocSize, |probe|)];
      forall i | 0 <= i < |probe| {
        b[i] := probe[i];
      }
      var overlap := |probe| - start;
      if start + len > |probe| {
        forall i | 0 <= i < start + len - |probe| {
          b[|probe| + i] := window[overlap + i];
        }
      }
    }

    // -----------------------------------------------------------------------
    // Seeking

    /** The stream offset of buffer[0]: pos in a write context, pos - buf_end in a
        read context. */
    function BufferStart(): (r: int)
      reads this
      ensures r == Tell() - bufPtr
    {
      if writeFlag then pos else pos - bufEnd
    }

    /** avio_seek can serve target by moving buf_ptr inside the buffer. */
    predicate InBuffer(target: int)
      reads this
      ensures InBuffer(target) ==> !mustFlush && BufferStart() <= target < BufferStart() + bufEnd
      ensures !mustFlush && target == Tell() && 0 <= bufPtr < bufEnd ==> InBuffer(target)
    {
      !mustFlush && 0 <= target - BufferStart() < bufEnd
    }

    /** avio_seek serves target by reading forward: the context reads, the target
        is not behind the buffer, and it is near or the source cannot seek. */
    predicate ShortSkip(target: int)
      reads this
      ensures ShortSkip(target) ==> !writeFlag && BufferStart() <= target
      ensures !writeFlag && !seekable && BufferStart() <= target ==> ShortSkip(target)
    {
      && !writeFlag && 0 <= target - BufferStart()
      && (!seekable || target - BufferStart() <= bufEnd + SHORT_SEEK_THRESHOLD)
    }

    /** The in-buffer branch of avio_seek. */
    method SeekInBuffer(target: int)
      requires Valid() && InBuffer(target)
      modifies this`bufPtr, this`eofReached
      ensures Valid() && !eofReached && bufPtr == target - BufferStart() && Tell() == target
    {
      bufPtr := target - BufferStart();
      eofReached := false;
    }

    /** The short-seek branch of avio_seek: refill until pos reaches target. It
        fails with AVERROR_EOF exactly when the stream ends before target or had
        already ended. */
    method SkipTo(target: int) returns (ret: int)
      requires Inv() && ShortSkip(target) && !InBuffer(target)
      modifies this`bufPtr, this`bufEnd, this`pos, this`eofReached, this`error, this`srcPos,
               this`buffer, this`bufferSize, buffer
      ensures Inv() && (buffer == old(buffer) || fresh(buffer))
      ensures ret == target <==> !old(eofReached) && target <= |View|
      ensures ret != target ==> ret == AVERROR_EOF && eofReached
      ensures ret == target ==> Tell() == target && !eofReached
      ensures error == old(error) || error == srcStatus
    {
      while pos < target && !eofReached
        invariant Inv() && (buffer == old(buffer) || fresh(buffer))
        invariant pos - bufEnd <= target
        invariant eofReached ==> old(eofReached) || target > |View|
        invariant old(eofReached) ==> eofReached
        invariant error == old(error) || error == srcStatus
        decreases |input| - srcPos, (if eofReached then 0 else 1)
      {
        FillBuffer();
      }
      if eofReached {
        return AVERROR_EOF;
      }
      bufPtr := bufEnd + target - pos;
      ret := target;
    }

    /** The flush a write context does before asking the seek callback. */
    method FlushForSeek()
      requires Valid() && writeFlag
      modifies this`bufPtr, this`pos, this`error, this`written, this`currentType, this`lastTime, this`mustFlush,
               this`Flushed, this`Sent, this`SentBytes, dyn, dyn.buffer
      ensures Valid() && mustFlush && bufPtr == 0
      ensures Flushed == old(Output()) && Output() == old(Output())
    {
      FlushBuffer();
      mustFlush := true;
    }

    /** The seek callback asked for target (SEEK_SET), and on success an empty
        buffer at pos = target. A read source's seek may fail for any target and
        succeeds only within [0, |input|]; an unknown sink's seek may fail, and
        always fails for a negative target; without a seek callback the result is
        AVERROR(EPIPE). */
    method CallSeek(target: int) returns (res: int)
      requires Valid() && (writeFlag ==> bufPtr == 0)
      modifies this`srcPos, this`View, this`bufPtr, this`bufEnd, this`pos, this`eofReached, dyn
      ensures Valid() && dyn.buffer == old(dyn.buffer)
      ensures seeker == NoSeek ==> res == -EPIPE
      ensures seeker == DynSeek ==> res == (if 0 <= target <= 0x7fff_ffff then 0 else -1)
      ensures seeker == SourceSeek && !writeFlag && res >= 0 ==> hasReader && 0 <= target <= |input|
      ensures res >= 0 ==> pos == target && bufPtr == 0 && Tell() == target && !eofReached
      ensures res >= 0 && !writeFlag ==> bufEnd == 0 && srcPos == target && View == input
      ensures res < 0 ==> pos == old(pos) && bufPtr == old(bufPtr) && bufEnd == old(bufEnd)
                          && srcPos == old(srcPos) && View == old(View) && eofReached == old(eofReached)
    {
      match seeker {
      case NoSeek =>
        res := -EPIPE;
      case DynSeek =>
        res := dyn.Seek(target, SEEK_SET);
        if res >= 0 {
          EmptyWriteAt(target);
        }
      case SourceSeek =>
        if writeFlag {
          res :| target < 0 ==> res < 0;
          if res >= 0 {
            EmptyWriteAt(target);
          }
        } else {
          res :| !(hasReader && 0 <= target <= |input|) ==> res < 0;
          if res >= 0 {
            EmptyReadAt(target);
          }
        }
      }
    }

    /** After a successful seek of a write context: the empty buffer at target. */
    method EmptyWriteAt(target: int)
      requires Valid() && writeFlag && bufPtr == 0 && 0 <= target
      modifies this`bufPtr, this`pos, this`eofReached
      ensures Valid() && pos == target && bufPtr == 0 && Tell() == target && !eofReached
    {
      bufPtr := 0;
      pos := target;
      eofReached := false;
    }

    /** After a successful seek of a read source: the source stands at target and
        the buffer is empty there. */
    method EmptyReadAt(target: int)
      requires Valid() && !writeFlag && hasReader && 0 <= target <= |input|
      modifies this`srcPos, this`View, this`bufPtr, this`bufEnd, this`pos, this`eofReached
      ensures Valid() && srcPos == target && View == input && bufEnd == 0
      ensures pos == target && bufPtr == 0 && Tell() == target && !eofReached
    {
      srcPos := target;
      View := input;
      bufEnd := 0;
      bufPtr := 0;
      pos := target;
      eofReached := false;
    }

    /** The protocol branch of avio_seek: a write context flushes first and must
        flush again before its next in-buffer seek; then the seek callback is asked
        for target, and on success the buffer is emptied at pos = target. */
    method SeekCallback(target: int) returns (ret: int)
      requires Valid()
      modifies this`bufPtr, this`bufEnd, this`pos, this`eofReached, this`srcPos, this`mustFlush, this`View,
               this`error, this`written, this`currentType, this`lastTime, this`Flushed, this`Sent, this`SentBytes,
               dyn, dyn.buffer
      ensures Valid()
      ensures writeFlag ==> Flushed == old(Output()) && mustFlush && Output() == old(Output())
      ensures !writeFlag ==> error == old(error) && Flushed == old(Flushed) && Sent == old(Sent)
      ensures seeker == NoSeek ==> ret == -EPIPE
      ensures seeker == DynSeek ==> ret == (if 0 <= target <= 0x7fff_ffff then target else -1)
      ensures seeker == SourceSeek && !writeFlag && ret >= 0 ==> hasReader && 0 <= target <= |input|
      ensures ret >= 0 ==> ret == target && pos == target && bufPtr == 0 && Tell() == target && !eofReached
      ensures ret >= 0 && !writeFlag ==> bufEnd == 0 && srcPos == target && View == input
      ensures ret < 0 && !writeFlag ==> pos == old(pos) && bufPtr == old(bufPtr) && bufEnd == old(bufEnd)
                                        && srcPos == old(srcPos) && View == old(View) && eofReached == old(eofReached)
    {
      if writeFlag {
        FlushForSeek();
      }
      var res := CallSeek(target);
      ret := if res < 0 then res else target;
    }

    /** avio_seek once target is known: inside the buffer, by reading forward, or
        through the seek callback. Every success clears eof_reached and returns
        target. */
    method SeekTo(target: int) returns (ret: int)
      requires Valid()
      modifies this`bufPtr, this`bufEnd, this`pos, this`eofReached, this`error, this`srcPos, this`buffer,
               this`bufferSize, buffer, this`mustFlush, this`View, this`written, this`currentType, this`lastTime,
               this`Flushed, this`Sent, this`SentBytes, dyn, dyn.buffer
      ensures Valid()
      ensures old(InBuffer(target)) ==>
        && ret == target && bufPtr == old(bufPtr + target - Tell())
        && pos == old(pos) && bufEnd == old(bufEnd) && buffer == old(buffer) && srcPos == old(srcPos)
        && View == old(View) && Flushed == old(Flushed) && Sent == old(Sent) && mustFlush == old(mustFlush)
      ensures old(!InBuffer(target) && ShortSkip(target)) ==>
        && (ret == target <==> !old(eofReached) && target <= |View|)
        && (ret != target ==> ret == AVERROR_EOF && eofReached)
      ensures old(!InBuffer(target) && !ShortSkip(target)) ==>
        && (writeFlag ==> Flushed == old(Output()) && mustFlush)
        && (seeker == NoSeek ==> ret == -EPIPE)
        && (seeker == DynSeek ==> ret == (if 0 <= target <= 0x7fff_ffff then target else -1))
        && (seeker == SourceSeek && !writeFlag && ret >= 0 ==> hasReader && 0 <= target <= |input|)
        && (ret >= 0 && !writeFlag ==> bufEnd == 0 && View == input)
      ensures ret >= 0 ==> ret == target && Tell() == target && !eofReached
    {
      if InBuffer(target) {
        SeekInBuffer(target);
        ret := target;
      } else if ShortSkip(target) {
        ret := SkipTo(target);
      } else {
        ret := SeekCallback(target);
      }
    }

    /** avio_seek: whence must be SEEK_SET or SEEK_CUR once AVSEEK_FORCE is
        cleared; SEEK_CUR with offset 0 is avio_tell. */
    method Seek(offset: int, whence: int) returns (ret: int)
      requires Valid()
      modifies this`bufPtr, this`bufEnd, this`pos, this`eofReached, this`error, this`srcPos, this`buffer,
               this`bufferSize, buffer, this`mustFlush, this`View, this`written, this`currentType, this`lastTime,
               this`Flushed, this`Sent, this`SentBytes, dyn, dyn.buffer
      ensures Valid()
      ensures var w := WhenceMode(whence);
        w != SEEK_SET && w != SEEK_CUR ==> ret == -EINVAL && unchanged(this)
      ensures WhenceMode(whence) == SEEK_CUR && offset == 0 ==> ret == old(Tell()) && unchanged(this)
      ensures var w := WhenceMode(whence);
        var target := if w == SEEK_CUR then offset + old(Tell()) else offset;
        (w == SEEK_SET || (w == SEEK_CUR && offset != 0)) ==>
          && (old(InBuffer(target)) ==> ret == target && pos == old(pos) && bufEnd == old(bufEnd)
                                        && buffer == old(buffer) && Flushed == old(Flushed) && View == old(View))
          && (old(!InBuffer(target) && ShortSkip(target)) ==>
                (ret == target <==> !old(eofReached) && target <= |View|) && (ret != target ==> ret == AVERROR_EOF))
          && (old(!InBuffer(target) && !ShortSkip(target)) ==>
                && (writeFlag ==> Flushed == old(Output()) && mustFlush)
                && (seeker == NoSeek ==> ret == -EPIPE)
                && (seeker == DynSeek ==> ret == (if 0 <= target <= 0x7fff_ffff then target else -1))
                && (seeker == SourceSeek && !writeFlag && ret >= 0 ==> hasReader && 0 <= target <= |input|))
          && (ret >= 0 ==> ret == target && Tell() == target && !eofReached)
    {
      var w := WhenceMode(whence);
      if w != SEEK_SET && w != SEEK_CUR {
        return -EINVAL;
      }
      var target := offset;
      if w == SEEK_CUR {
        if offset == 0 {
          return Tell();
        }
        target := offset + Tell();
      }
      ret := SeekTo(target);
    }
  }
}
