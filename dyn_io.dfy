/** Write contexts whose sink is a DynBuffer: avio_open_dyn_buf,
    ffio_open_dyn_packet_buf and ffio_open_null_buf set them up;
    avio_close_dyn_buf and ffio_close_null_buf flush them and report what the
    sink holds. */
module DynIO {
  import opened Bytes
  import opened AvioConsts
  import opened DynBuf
  import opened Avio

  /** url_open_dyn_buf_internal: a write context over a zeroed buffer of
      max_packet_size bytes (1024 when 0), writing with dyn_buf_write and seeking
      with dyn_buf_seek, or, with a packet size, writing length-prefixed packets
      and not seeking. */
  method OpenDynBufInternal(maxPacketSize: int) returns (s: IOContext)
    requires 0 <= maxPacketSize <= INT_MAX
    ensures fresh(s) && fresh(s.buffer) && fresh(s.dyn) && fresh(s.dyn.buffer) && s.Valid()
    ensures s.writeFlag && s.maxPacketSize == maxPacketSize
    ensures s.bufferSize == (if maxPacketSize != 0 then maxPacketSize else DYN_IO_BUFFER_SIZE)
    ensures s.writer == (if maxPacketSize != 0 then DynPacketWrite else DynWrite)
    ensures s.seeker == (if maxPacketSize != 0 then NoSeek else DynSeek)
    ensures s.Tell() == 0 && s.Output() == [] && s.error == 0 && s.dyn.State() == DynState(0, 0, [])
    ensures maxPacketSize == 0 ==> s.DynInSync()
  {
    var size := if maxPacketSize != 0 then maxPacketSize else DYN_IO_BUFFER_SIZE;
    s := new IOContext.Init(Repeat(0, size), true,
                            if maxPacketSize != 0 then DynPacketWrite else DynWrite,
                            if maxPacketSize != 0 then NoSeek else DynSeek, false, [], 0);
    s.maxPacketSize := maxPacketSize;
    assert s.buffer[..s.bufPtr] == [];
  }

  /** avio_open_dyn_buf. */
  method OpenDynBuf() returns (s: IOContext)
    ensures fresh(s) && fresh(s.buffer) && fresh(s.dyn) && fresh(s.dyn.buffer) && s.Valid()
    ensures s.writeFlag && s.maxPacketSize == 0 && s.bufferSize == DYN_IO_BUFFER_SIZE
    ensures s.writer == DynWrite && s.seeker == DynSeek
    ensures s.Tell() == 0 && s.Output() == [] && s.DynInSync()
  {
    s := OpenDynBufInternal(0);
  }

  /** ffio_open_dyn_packet_buf: -1 unless the packet size is positive. */
  method OpenDynPacketBuf(maxPacketSize: int) returns (ret: int, s: IOContext?)
    requires maxPacketSize <= INT_MAX
    ensures ret == 0 || ret == -1
    ensures ret == -1 <==> maxPacketSize <= 0
    ensures ret == -1 ==> s == null
    ensures ret == 0 ==>
      && s != null && fresh(s) && fresh(s.buffer) && fresh(s.dyn) && fresh(s.dyn.buffer) && s.Valid()
      && s.writeFlag && s.maxPacketSize == s.bufferSize == maxPacketSize
      && s.writer == DynPacketWrite && s.seeker == NoSeek
      && s.Tell() == 0 && s.Output() == [] && s.dyn.State() == DynState(0, 0, [])
  {
    if maxPacketSize <= 0 {
      return -1, null;
    }
    s := OpenDynBufInternal(maxPacketSize);
    ret := 0;
  }

  /** ffio_open_null_buf: a dynamic buffer whose write callback only counts. */
  method OpenNullBuf() returns (s: IOContext)
    ensures fresh(s) && fresh(s.buffer) && fresh(s.dyn) && fresh(s.dyn.buffer) && s.Valid()
    ensures s.writeFlag && s.maxPacketSize == 0 && s.bufferSize == DYN_IO_BUFFER_SIZE
    ensures s.writer == NullWrite && s.seeker == DynSeek
    ensures s.Tell() == 0 && s.Output() == [] && s.CountInSync()
  {
    s := new IOContext.Init(Repeat(0, DYN_IO_BUFFER_SIZE), true, NullWrite, DynSeek, false, [], 0);
    assert s.buffer[..s.bufPtr] == [];
  }

  /** avio_close_dyn_buf: a buffer without packet framing gets PADDING_SIZE zero
      bytes appended, which the result does not count; then the context is
      flushed and the DynBuffer's array and size are handed back. On a buffer
      that has received everything written, the first ret bytes are what was
      written. */
  method CloseDynBuf(s: IOContext) returns (data: array<byte>, ret: int)
    requires s.Valid() && s.writeFlag
    modifies s, s.buffer, s.dyn, s.dyn.buffer
    ensures data == s.dyn.buffer
    ensures ret == s.dyn.size - (if old(s.maxPacketSize) == 0 then PADDING_SIZE else 0)
    ensures old(s.maxPacketSize == 0 && s.DynInSync()) && |old(s.Output())| + PADDING_SIZE <= INT_MAX / 2 ==>
      && ret == |old(s.Output())| && ret + PADDING_SIZE <= data.Length
      && data[..ret] == old(s.Output())
      && data[ret..ret + PADDING_SIZE] == Repeat(0, PADDING_SIZE)
  {
    var padding := 0;
    ghost var written := s.Output();
    if s.maxPacketSize == 0 {
      s.Write(Repeat(0, PADDING_SIZE));
      padding := PADDING_SIZE;
    }
    s.Flush();
    data := s.dyn.buffer;
    ret := s.dyn.size - padding;
    if padding == PADDING_SIZE && old(s.DynInSync()) && |written| + PADDING_SIZE <= INT_MAX / 2 {
      var all := written + Repeat(0, PADDING_SIZE);
      assert data[..|all|] == all;
      assert data[..ret] == all[..ret];
      assert data[ret..ret + PADDING_SIZE] == all[ret..];
    }
  }

  /** ffio_close_null_buf: flush, then the number of bytes the sink counted. */
  method CloseNullBuf(s: IOContext) returns (ret: int)
    requires s.Valid() && s.writeFlag
    modifies s, s.buffer, s.dyn, s.dyn.buffer
    ensures ret == s.dyn.size
    ensures old(s.CountInSync()) ==> ret == |old(s.Output())|
  {
    s.Flush();
    ret := s.dyn.size;
  }

  /** A dynamic buffer returns exactly the bytes written to it. */
  method DynBufContents(bytes: seq<byte>) returns (out: seq<byte>)
    requires |bytes| + PADDING_SIZE <= INT_MAX / 2
    ensures out == bytes
  {
    var s := OpenDynBuf();
    s.Write(bytes);
    var data, ret := CloseDynBuf(s);
    out := data[..ret];
  }

  /** A null buffer counts exactly the bytes written to it. */
  method NullBufCount(bytes: seq<byte>) returns (n: int)
    ensures n == |bytes|
  {
    var s := OpenNullBuf();
    s.Write(bytes);
    n := CloseNullBuf(s);
  }
}
