# Buffered byte I/O of libavformat (aviobuf.c), modelled in Dafny

This project models the buffered I/O layer of libavformat. That layer is an
`AVIOContext`: a byte buffer placed in front of a packet source or a packet sink.

- **Write context.** It collects bytes in `buffer[0..buf_ptr)`. `flush_buffer`
  hands those bytes to the write callback when the buffer fills or is flushed.
- **Read context.** It keeps a window `buffer[0..buf_end)` of the stream ending
  at `pos`. `fill_buffer` refills the window from the read callback.
- **Serialisers.** On top of the contexts sit the little- and big-endian
  writers and readers (`avio_wl16` … `avio_rb64`), the 7-bit varint
  (`ff_put_v` / `ffio_read_varlen`), the C-string writer and readers
  (`avio_put_str`, `avio_get_str`, `ff_get_line`) and `avio_seek`.
- **Dynamic buffers.** A `DynBuffer` is a growable memory sink
  (`avio_open_dyn_buf`, `ffio_open_dyn_packet_buf`, `ffio_open_null_buf` and
  their close functions).

`Avio.IOContext` and `DynBuf.DynBuffer` are classes whose fields are the C
structs' fields. Pointers into the buffer become indices: `bufPtr` is
`buf_ptr - buffer` and `bufEnd` is `buf_end - buffer`. The methods update these
fields in place, and buffers are `array<byte>`. Ghost fields record what the C
code does not keep:

- `View`: the whole stream a read context reads.
- `Flushed`: every byte a write context has handed on.
- `Sent` and `SentBytes`: the write callback's calls.

The write-side contracts are stated over `Output()`, which is `Flushed`
followed by the pending bytes. The read-side contracts are stated over `Tell()`
and the position in `View`.

The callbacks are modelled as follows:

- **Read callback.** An oracle serving the sequence `input` from `srcPos` in
  chunks of any size, then the status `srcStatus`.
- **Write callback.** Either an unknown sink that accepts or refuses each
  packet, or one of the `DynBuffer` writers: `dyn_buf_write`,
  `dyn_packet_buf_write` or `null_buf_write`.
- **Seek callback.** Absent, the dynamic buffer's `dyn_buf_seek`, or the
  source's seek.

Integers are unbounded. `unsigned` wrap-around is written out where the source
relies on it, as in the overflow test of `dyn_buf_write`.

The Blowfish cipher (libavutil/tests/blowfish.c) and the pixel-format
descriptors (libavutil/pixdesc.h) are not part of this model. The model follows
libavformat/aviobuf.c.

Files:

- `bytes.dfy`: byte strings and their little- and big-endian values.
- `varint.dfy`: the varint encoding and its decoder.
- `avio_consts.dfy`: constants.
- `dynbuf.dfy`: `DynBuffer`.
- `avio.dfy`: `AVIOContext` buffering, reading, writing, rewinding and seeking.
- `avio_serial.dfy`: the serialisers.
- `dyn_io.dfy`: dynamic-buffer contexts.
- `roundtrip.dfy`: end-to-end round trips of a value written into a dynamic
  buffer and read back through a read context.

## Model

| member | source | states |
|---|---|---|
| Avio.IOContext.Init | libavformat/aviobuf.c:109-149 | ffio_init_context creates a consistent context. The buffer holds the given contents and buf_ptr is at its start. A write context's window is the whole buffer. A read context with a reader starts empty at position 0. One without a reader exposes the contents as the whole stream, with pos at its end. Error, eof, the data type and the time are reset. written starts at 0. ffio_init_context does not set written: it is 0 because avio_alloc_context allocates the context with av_mallocz (line 160), as the dynamic-buffer openers do too. |
| Avio.IOContext.Tell | libavformat/aviobuf.c:266-269 | The position avio_seek(s, 0, SEEK_CUR) returns. For a read context it lies within the window that ends at pos. For a write context it is at or after pos. |
| Avio.IOContext.DynAppend | libavformat/aviobuf.c:1102-1105 | When a dynamic buffer positioned at the end of exactly the flushed bytes appends chunk at pos, it holds exactly the flushed bytes followed by chunk and is again positioned at its end. |
| Avio.IOContext.Emit | libavformat/aviobuf.c:177-193 | The write call of flush_buffer. Dynamic buffers append exactly the chunk. The null buffer counts it. An unknown sink either takes all of it or fails with a negative code. Every call except for a missing writer records one delivery of the chunk. |
| Avio.IOContext.Deliver | libavformat/aviobuf.c:176-193 | The pending bytes count as flushed. They are delivered only when no earlier error is present. A first error is recorded and never overwritten. `written` becomes the furthest offset reached. Dynamic and null sinks stay in step with what was flushed. |
| Avio.IOContext.FlushBuffer | libavformat/aviobuf.c:173-207 | The buffer is emptied and pos advances by the pending count. The total output does not change. An error is kept. A sync or boundary data type falls back to unknown and the last time is reset. With nothing pending, nothing else changes. |
| Avio.IOContext.FlushPending | libavformat/aviobuf.c:175-205 | The non-empty branch of flush_buffer: the same outcome as FlushBuffer when bytes are pending. |
| Avio.IOContext.W8 | libavformat/aviobuf.c:209-214 | avio_w8 appends the low byte of b to the output and advances the position by one. An error is kept. A dynamic or null sink stays in sync. |
| Avio.IOContext.Store | libavformat/aviobuf.c:234-235 | The memcpy into the buffer at buf_ptr places exactly the new part after what is pending. |
| Avio.IOContext.Put | libavformat/aviobuf.c:233-241 | One round of avio_write: the output grows by exactly the copied part, and a full buffer is flushed. |
| Avio.IOContext.Write | libavformat/aviobuf.c:230-243 | avio_write appends exactly data to the output, whatever its length compared to the buffer. The position advances by the length of data. An error is kept. |
| Avio.IOContext.Fill | libavformat/aviobuf.c:216-228 | ffio_fill appends count copies of the low byte of b to the output, or nothing when count is not positive. |
| Avio.IOContext.Flush | libavformat/aviobuf.c:245-249 | avio_flush hands over everything pending: Flushed becomes the whole output, the buffer is empty and the position is unchanged. The sink, the error, written, the type and the time change exactly as flush_buffer changes them, and must_flush is cleared. |
| Avio.IOContext.MarkerKind | libavformat/aviobuf.c:438-440 | The marker avio_write_marker acts on is the one given, except that a boundary point becomes unknown when boundary points are ignored. |
| Avio.IOContext.WriteMarker | libavformat/aviobuf.c:434-463 | avio_write_marker never changes the output or the position, and keeps an earlier error. It starts a new packet, flushing what is pending and recording the type and time, exactly under the source's conditions: a write_data_type callback is present, and the marker is neither an unknown following non-header data nor a repeated header or trailer. A boundary point is read as unknown when boundary points are ignored. A new packet first hands the pending bytes to the sink, tagged with the previous type and time, and records the new ones. Otherwise nothing changes: not pos, error, written, the sink or the dynamic buffer. |
| Avio.IOContext.StartMarker | libavformat/aviobuf.c:459-462 | Starting a new packet flushes the pending bytes as one typed packet carrying the previous type and time, unless the buffer is empty or an error is pending. It then records the new type and time, with the output and position unchanged. |
| Avio.IOContext.ReadChunk | libavformat/aviobuf.c:499-513 | A read_packet call on a source that still has bytes delivers at least one byte at dst and moves pos and the window end by the same amount. |
| Avio.IOContext.Exhausted | libavformat/aviobuf.c:503-508 | A read_packet that returns a status of 0 or below sets eof_reached. A negative status becomes the error. |
| Avio.IOContext.Refill | libavformat/aviobuf.c:477-513 | The read_packet call of fill_buffer on either outcome. Either bytes arrive at dst, or the source is exhausted and eof is set. pos advances by exactly what arrived. |
| Avio.IOContext.SetBufSize | libavformat/aviobuf.c:875-902 | ffio_set_buf_size in a read context: a fresh buffer of n bytes with an empty window. |
| Avio.IOContext.FillBuffer | libavformat/aviobuf.c:467-514 | fill_buffer fetches more bytes unless eof is already known. Starting from an empty window, the position is unchanged, and the window has bytes exactly when the stream has bytes left. When eof was already set, nothing moves. |
| Avio.IOContext.Fetch | libavformat/aviobuf.c:492-513 | The part of fill_buffer past its eof test: a buffer larger than the packet size (or IO_BUFFER_SIZE) is first replaced by one of that size and filled from its start. Then read_packet either brings bytes, leaving the window non-empty, or finds the source exhausted and sets eof. |
| Avio.IOContext.CopyOut | libavformat/aviobuf.c:591-594 | The memcpy from the window: the copied bytes are the stream bytes at the current position. No other byte of buf changes. |
| Avio.IOContext.DirectRead | libavformat/aviobuf.c:567-583 | The unbuffered branch of avio_read: up to n stream bytes land directly in buf. A non-positive result means the stream is at its end and eof is set. |
| Avio.IOContext.SourceInto | libavformat/aviobuf.c:568-569 | read_packet into the caller's buffer places the next source bytes at the given offset and changes no other byte. |
| Avio.IOContext.Consume | libavformat/aviobuf.c:578-582 | After a direct read, pos and the source advance by the count and the window is empty at the buffer start. The context stays consistent. |
| Avio.IOContext.R8 | libavformat/aviobuf.c:548-555 | avio_r8 returns the next stream byte and advances by one, or returns 0 and stays put at the end of the stream, setting eof. |
| Avio.IOContext.ReadStep | libavformat/aviobuf.c:562-596 | One round of avio_read's loop keeps buf equal to the stream from the start position. It stops only at the end of the stream. |
| Avio.IOContext.Read | libavformat/aviobuf.c:557-602 | avio_read copies min(size, remaining) stream bytes into buf and advances by that count. No later byte changes. It returns the count. With nothing copied, it returns the error, or AVERROR_EOF at eof, or 0. A short read implies eof. |
| Avio.IOContext.RewindWindow | libavformat/aviobuf.c:638-646 | The window reset of avio_read_partial moves an exhausted window back to the buffer start without changing the position. |
| Avio.IOContext.ReadPartial | libavformat/aviobuf.c:624-659 | avio_read_partial copies at most size stream bytes, and all the buffered ones that fit when the window is non-empty. It returns -1 for a negative size. It copies nothing only at the end of the stream. The result is coded as in avio_read. |
| Avio.IOContext.ReadSize | libavformat/aviobuf.c:604-610 | ffio_read_size returns size when the stream has size bytes left, with those bytes in buf. It returns AVERROR_INVALIDDATA when the stream is shorter. |
| Avio.IOContext.ReadIndirect | libavformat/aviobuf.c:612-622 | ffio_read_indirect hands out min(size, remaining) stream bytes. It serves them from the buffer without touching buf exactly when the window already holds size bytes. |
| Avio.IOContext.RewindWithProbeData | libavformat/aviobuf.c:904-941 | ffio_rewind_with_probe_data refuses a write context, or one whose buffered start lies beyond the probe, with -EINVAL and no change. Otherwise the stream becomes the probe followed by the stream beyond it. The context is back at offset 0, the first buffer bytes are the probe, and the buffer size is at least the old one. |
| Avio.IOContext.InstallProbe | libavformat/aviobuf.c:932-940 | The install step of the rewind: the spliced buffer becomes the window, the position is 0 and eof is cleared. |
| Avio.IOContext.Splice | libavformat/aviobuf.c:919-930 | The buffer ffio_rewind_with_probe_data builds is fresh, and its length is the larger of the allocation size and the probe length. It holds the probe, then the window bytes past the overlap, and so agrees with Spliced on the new stream. |
| Avio.IOContext.BufferStart | libavformat/aviobuf.c:261 | The stream offset of buffer[0], the pos avio_seek computes: Tell minus buf_ptr. |
| Avio.IOContext.InBuffer | libavformat/aviobuf.c:273-274 | The in-buffer test of avio_seek: the target lies in the window and no flush is pending. The current position with unread window bytes always passes. |
| Avio.IOContext.ShortSkip | libavformat/aviobuf.c:277-280 | The read-forward test of avio_seek: only a read context passes, for a target not behind the buffer start. A source that cannot seek always reads forward. |
| Avio.IOContext.SeekInBuffer | libavformat/aviobuf.c:273-276 | The in-buffer branch of avio_seek: buf_ptr moves so that Tell is the target, and eof is cleared. |
| Avio.IOContext.SkipTo | libavformat/aviobuf.c:277-285 | The short-skip branch reads forward to the target. It succeeds exactly when eof was not set and the stream reaches the target. Otherwise it returns AVERROR_EOF. |
| Avio.IOContext.FlushForSeek | libavformat/aviobuf.c:289-292 | Before calling the seek callback, a write context flushes and sets must_flush. |
| Avio.IOContext.CallSeek | libavformat/aviobuf.c:293-300 | The seek callback: -EPIPE when there is none. The dynamic buffer accepts exactly the targets in [0, INT_MAX]. A read source may fail for any target and succeeds only on targets within its stream. On success the buffer is empty at the target. On failure the position and window are unchanged. |
| Avio.IOContext.EmptyWriteAt | libavformat/aviobuf.c:299-300 | After a successful seek, a write context has an empty buffer at pos equal to the target. |
| Avio.IOContext.EmptyReadAt | libavformat/aviobuf.c:297-300 | After a successful seek, a read context has an empty window at the target and the source stands there. |
| Avio.IOContext.SeekCallback | libavformat/aviobuf.c:286-301 | The protocol branch of avio_seek, including the flush. It fails and succeeds as CallSeek does, and on success returns the target. |
| Avio.IOContext.SeekTo | libavformat/aviobuf.c:273-303 | avio_seek once the target is known works in one of three ways. Inside the buffer it only moves buf_ptr. Within the short-seek threshold it reads forward. Otherwise it asks the callback. Any success leaves Tell at the target with eof cleared. |
| Avio.IOContext.Seek | libavformat/aviobuf.c:251-304 | avio_seek with AVSEEK_FORCE ignored. A whence other than SEEK_SET or SEEK_CUR gives -EINVAL with no change. SEEK_CUR 0 returns the position with no change. Otherwise it behaves as SeekTo on offset, or on offset plus position. |
| Avio.Spliced | libavformat/aviobuf.c:919-930 | The stream after rewinding with probe data starts with the probe and continues with the unread bytes. It is the old stream when the probe is a prefix of it. |
| Avio.WhenceMode | libavformat/aviobuf.c:255-256 | Clearing AVSEEK_FORCE keeps every whence below it and leaves the force bit clear. |
| Avio.Repeat | libavformat/aviobuf.c:220 | The memset of ffio_fill: n copies of one byte. |
| Avio.RepeatAdd | libavformat/aviobuf.c:216-228 | Filling m and then n copies is filling m + n copies. |
| Avio.LookaheadStep | libavformat/aviobuf.c:548-555 | One more avio_r8 extends the bytes read by the byte at the new position. |
| Avio.LookaheadAt | libavformat/aviobuf.c:548-555 | Byte i of n bytes read is the byte a single read obtains after i reads. |
| Avio.LookaheadSplit | libavformat/aviobuf.c:548-555 | Reading n bytes then m bytes is the same as reading n + m bytes, in content and in final position. |
| DynBuf.Grow | libavformat/aviobuf.c:1086-1090 | The capacity dyn_buf_write settles on covers both the needed size and the old capacity. |
| DynBuf.GrowBounds | libavformat/aviobuf.c:1086-1090 | When the data fits already, the capacity is unchanged. Otherwise the capacity grows by at most about half the need. |
| DynBuf.UnsignedSum | libavformat/aviobuf.c:1082-1085 | The unsigned overflow test of dyn_buf_write rejects exactly the sums beyond INT_MAX/2. Below that bound the unsigned sum is the true sum. |
| DynBuf.KeptJoin | libavformat/aviobuf.c:1102-1106 | Bytes kept outside two adjacent written ranges are kept outside their union. |
| DynBuf.DynBuffer.constructor | libavformat/aviobuf.c:1145-1148 | A zeroed DynBuffer: position, size and capacity 0. |
| DynBuf.DynBuffer.Write | libavformat/aviobuf.c:1076-1107 | dyn_buf_write returns -1 with nothing changed when pos + len exceeds INT_MAX/2. Otherwise it writes exactly buf at pos and advances pos by its length. Size becomes the furthest end, the capacity grows as Grow says, and all other bytes are kept. |
| DynBuf.DynBuffer.Reserve | libavformat/aviobuf.c:1086-1101 | Growing the allocation keeps every existing byte, the position and the size. |
| DynBuf.DynBuffer.Realloc | libavformat/aviobuf.c:1093-1100 | av_reallocp to n bytes keeps the old contents. |
| DynBuf.DynBuffer.CopyIn | libavformat/aviobuf.c:1102 | The memcpy writes exactly the part at the offset and changes no other byte. |
| DynBuf.DynBuffer.PacketWrite | libavformat/aviobuf.c:1109-1122 | dyn_packet_buf_write writes the 4-byte big-endian length, then the data, under the same overflow rule for each part. A refused header changes nothing. When the header is written but the data is refused, pos, size and the capacity are those after the header. On success the capacity has grown for both parts. |
| DynBuf.DynBuffer.Seek | libavformat/aviobuf.c:1124-1136 | dyn_buf_seek takes the offset from pos for SEEK_CUR, from size for SEEK_END, and from 0 otherwise. It returns -1 for targets outside [0, INT_MAX] and otherwise moves pos there. Size and data never change. |
| DynBuf.SeekTarget | libavformat/aviobuf.c:1128-1131 | The target of dyn_buf_seek is offset from 0, from pos or from size. SEEK_CUR 0 stays at pos and SEEK_END 0 lands at size. |
| DynBuf.DynBuffer.NullWrite | libavformat/aviobuf.c:1212-1220 | null_buf_write only counts: pos and size advance, and no byte is stored. |
| DynIO.OpenDynBufInternal | libavformat/aviobuf.c:1138-1158 | url_open_dyn_buf_internal creates a fresh write context over an empty DynBuffer. Its buffer is max_packet_size bytes, or 1024 when that is 0. It writes through dyn_buf_write with seeking, or through dyn_packet_buf_write without. |
| DynIO.OpenDynBuf | libavformat/aviobuf.c:1160-1163 | avio_open_dyn_buf creates an empty seekable dynamic buffer that is in sync with its output. |
| DynIO.OpenDynPacketBuf | libavformat/aviobuf.c:1165-1170 | ffio_open_dyn_packet_buf returns -1 exactly when the packet size is not positive. Otherwise it creates a packet-framing dynamic buffer. |
| DynIO.OpenNullBuf | libavformat/aviobuf.c:1222-1230 | ffio_open_null_buf creates a dynamic buffer whose writer only counts. |
| DynIO.CloseDynBuf | libavformat/aviobuf.c:1172-1200 | avio_close_dyn_buf hands back the DynBuffer's array. Its first ret bytes are everything written. Eight zero padding bytes follow, which the count leaves out. |
| DynIO.CloseNullBuf | libavformat/aviobuf.c:1232-1245 | ffio_close_null_buf returns exactly the number of bytes written. |
| DynIO.DynBufContents | libavformat/aviobuf.c:1160-1200 | Writing bytes into a dynamic buffer and closing it gives back exactly those bytes. |
| DynIO.NullBufCount | libavformat/aviobuf.c:1222-1245 | A null buffer counts exactly the bytes written to it. |
| AvioSerial.WL16 | libavformat/aviobuf.c:410-414 | avio_wl16 appends the low 16 bits of val, low byte first. |
| AvioSerial.WB16 | libavformat/aviobuf.c:416-420 | avio_wb16 appends the low 16 bits of val, high byte first. |
| AvioSerial.WL24 | libavformat/aviobuf.c:422-426 | avio_wl24 appends the low 24 bits of val, low byte first. |
| AvioSerial.WB24 | libavformat/aviobuf.c:428-432 | avio_wb24 appends the low 24 bits of val, high byte first. |
| AvioSerial.WL32 | libavformat/aviobuf.c:328-334 | avio_wl32 appends the 4 little-endian bytes of val. The position advances by 4 and an error is kept. |
| AvioSerial.WB32 | libavformat/aviobuf.c:336-342 | avio_wb32 appends the 4 big-endian bytes of val. |
| AvioSerial.WL64 | libavformat/aviobuf.c:398-402 | avio_wl64 appends the 8 little-endian bytes of val: the low word, then the high word. |
| AvioSerial.WB64 | libavformat/aviobuf.c:404-408 | avio_wb64 appends the 8 big-endian bytes of val: the high word, then the low word. |
| AvioSerial.LE4 | libavformat/aviobuf.c:330-333 | The four bytes avio_wl32 writes are the little-endian encoding. |
| AvioSerial.BE4 | libavformat/aviobuf.c:338-341 | The four bytes avio_wb32 writes are the big-endian encoding. |
| AvioSerial.Halves | libavformat/aviobuf.c:398-408 | The two 32-bit halves of a 64-bit value, as avio_wl64/avio_wb64 split it. |
| AvioSerial.PutV | libavformat/aviobuf.c:388-396 | ff_put_v appends exactly the varint encoding of val and advances by its length. |
| AvioSerial.PutGroups | libavformat/aviobuf.c:392-393 | The loop of ff_put_v writes every group but the last: all but the final byte of the encoding. |
| AvioSerial.AppendNext | libavformat/aviobuf.c:393 | Writing byte j after the first j bytes of the encoding gives its first j + 1 bytes. |
| AvioSerial.AppendLast | libavformat/aviobuf.c:395 | Writing the final group completes the encoding. |
| AvioSerial.PutStr | libavformat/aviobuf.c:344-353 | avio_put_str writes the string and its terminating NUL, or a single NUL for a null pointer. It returns the number of bytes written. |
| AvioSerial.ReadOne | libavformat/aviobuf.c:548-555 | One byte read has the same value in either byte order. |
| AvioSerial.JoinLE | libavformat/aviobuf.c:661-691 | The way avio_rl24/32/64 combine two reads: the value of n + m bytes is the low part plus 256^n times the high part. |
| AvioSerial.JoinBE | libavformat/aviobuf.c:693-779 | The way avio_rb24/32/64 combine two reads: the value of n + m bytes is 256^m times the high part plus the low part. |
| AvioSerial.Powers | libavformat/aviobuf.c:661-779 | The shifts by 8, 16, 32 and 64 bits the readers use. |
| AvioSerial.RL16 | libavformat/aviobuf.c:661-667 | avio_rl16 returns the little-endian value of the next 2 bytes of the stream, with 0 bytes past its end, and advances past them. |
| AvioSerial.RL24 | libavformat/aviobuf.c:669-675 | avio_rl24 does the same for 3 bytes. |
| AvioSerial.RL32 | libavformat/aviobuf.c:677-683 | avio_rl32 does the same for 4 bytes. |
| AvioSerial.RL64 | libavformat/aviobuf.c:685-691 | avio_rl64 does the same for 8 bytes. |
| AvioSerial.RB16 | libavformat/aviobuf.c:693-699 | avio_rb16 returns the big-endian value of the next 2 bytes. |
| AvioSerial.RB24 | libavformat/aviobuf.c:701-707 | avio_rb24 does the same for 3 bytes. |
| AvioSerial.RB32 | libavformat/aviobuf.c:708-714 | avio_rb32 does the same for 4 bytes. |
| AvioSerial.RB64 | libavformat/aviobuf.c:773-779 | avio_rb64 does the same for 8 bytes. |
| AvioSerial.ReadAt | libavformat/aviobuf.c:548-555 | The next avio_r8 of a reader that has read n of the bytes l yields l[n]. |
| AvioSerial.Rest | libavformat/aviobuf.c:548-555 | What successive avio_r8 calls yield from t on: the remaining bytes, then 0. |
| AvioSerial.RestCode | libavformat/aviobuf.c:781-790 | A varint read always ends: the trailing 0 stops it. |
| AvioSerial.VarintValueStep | libavformat/aviobuf.c:786-787 | One step of read_varlen's accumulation is one more byte of the decoded prefix. |
| AvioSerial.ReadVarlen | libavformat/aviobuf.c:781-790 | ffio_read_varlen reads the bytes up to and including the first one below 128. It returns their 7-bit groups, most significant first, modulo 2^64. |
| AvioSerial.ContRunAt | libavformat/aviobuf.c:785-788 | The do-while test of ffio_read_varlen: byte n of the stream has bit 7 set exactly when n lies inside the leading run of continuation bytes, so the loop stops at the first byte below 128. |
| AvioSerial.ReadVarlenOfPutV | libavformat/aviobuf.c:781-790 | On a stream holding the encoding ff_put_v writes, read_varlen stops after exactly that encoding and recovers the value. |
| AvioSerial.RestStarts | libavformat/aviobuf.c:548-555 | A stream holding code at t reads on as code. |
| AvioSerial.FirstNul | libavformat/aviobuf.c:739-745 | The index of the first NUL, or the length when there is none. |
| AvioSerial.StrNext | libavformat/aviobuf.c:740-741 | One iteration of avio_get_str's copy loop stores the next byte read at buf[n]. |
| AvioSerial.CopyLoop | libavformat/aviobuf.c:738-742 | The copy loop of avio_get_str stores the bytes before the first NUL, up to the room, and consumes the NUL when it is within the room. |
| AvioSerial.SkipLoop | libavformat/aviobuf.c:743-746 | The skip loop of avio_get_str consumes up to and including the first NUL within maxlen. It returns the count consumed, or maxlen. |
| AvioSerial.GetStr | libavformat/aviobuf.c:731-747 | avio_get_str returns -EINVAL and touches nothing when buflen is not positive. Otherwise it consumes up to and including the first NUL within maxlen, and returns that count, or maxlen. buf holds what fits of the string before the NUL, always NUL-terminated. |
| AvioSerial.LineEnd | libavformat/aviobuf.c:716-729 | The index of the first newline or NUL. |
| AvioSerial.LineNext | libavformat/aviobuf.c:722-724 | One iteration of ff_get_line reads the next byte and stores it when there is room. |
| AvioSerial.Stored | libavformat/aviobuf.c:721-725 | The number of bytes ff_get_line has stored after n reads never exceeds n or the room maxlen - 1. Before the line end it is n capped by the room. Bytes after the line end are never stored. |
| AvioSerial.LineCount | libavformat/aviobuf.c:723-724 | The count of stored bytes grows by one per byte read until the buffer is full. |
| AvioSerial.LineLoop | libavformat/aviobuf.c:721-725 | The loop of ff_get_line reads through the first newline or NUL and stores what fits. |
| AvioSerial.RestCodeLine | libavformat/aviobuf.c:725 | The line loop always ends: the trailing 0 stops it. |
| AvioSerial.GetLine | libavformat/aviobuf.c:716-729 | ff_get_line consumes through the first newline or NUL and stores the line, including a newline, up to maxlen - 1 bytes. It terminates buf with NUL and returns the stored length. |
| Bytes.Pow256 | libavformat/aviobuf.c:328-779 | A byte shift is a positive power of 256. |
| Bytes.LEAt | libavformat/aviobuf.c:328-334 | Byte i of the little-endian encoding is bits 8i..8i+7 of the value. |
| Bytes.BEAt | libavformat/aviobuf.c:336-342 | Byte i of the big-endian encoding is the byte n-1-i from the bottom. |
| Bytes.LERoundTrip | libavformat/aviobuf.c:328-691 | Decoding an n-byte little-endian encoding gives the value modulo 256^n. |
| Bytes.BERoundTrip | libavformat/aviobuf.c:336-779 | Decoding an n-byte big-endian encoding gives the value modulo 256^n. |
| Bytes.LERoundTripExact | libavformat/aviobuf.c:328-691 | A value that fits in n bytes is recovered exactly from its little-endian encoding. |
| Bytes.BERoundTripExact | libavformat/aviobuf.c:336-779 | A value that fits in n bytes is recovered exactly from its big-endian encoding. |
| Bytes.FromLEBound | libavformat/aviobuf.c:661-691 | A little-endian value of n bytes is below 256^n. |
| Bytes.FromBEBound | libavformat/aviobuf.c:693-779 | A big-endian value of n bytes is below 256^n. |
| Bytes.LEOfFromLE | libavformat/aviobuf.c:661-691 | Re-encoding a decoded little-endian string gives the string back. |
| Bytes.BEOfFromBE | libavformat/aviobuf.c:693-779 | Re-encoding a decoded big-endian string gives the string back. |
| Bytes.FromLEAppend | libavformat/aviobuf.c:661-691 | The little-endian value of a + b is value(a) + 256^\|a\| * value(b). |
| Bytes.FromBEAppend | libavformat/aviobuf.c:693-779 | The big-endian value of a + b is value(a) * 256^\|b\| + value(b). |
| Bytes.LEConcat | libavformat/aviobuf.c:398-402 | An (m+n)-byte little-endian encoding is the low m bytes, then the encoding of the value shifted down by m bytes. |
| Bytes.BEConcat | libavformat/aviobuf.c:404-408 | An (m+n)-byte big-endian encoding is the encoding of the value shifted down by n bytes, then its low n bytes. |
| Bytes.LEMod | libavformat/aviobuf.c:398-402 | Only the value modulo 256^n shows in an n-byte little-endian encoding. |
| Bytes.BEMod | libavformat/aviobuf.c:404-408 | Only the value modulo 256^n shows in an n-byte big-endian encoding. |
| Bytes.PowAdd | libavformat/aviobuf.c:685-691 | 256^(m+n) = 256^m * 256^n. |
| Bytes.ModPowStep | libavformat/aviobuf.c:328-342 | The value modulo 256^(n+1) is its low byte plus 256 times the rest modulo 256^n. |
| Varint.Pow128 | libavformat/aviobuf.c:378-386 | A 7-bit group shift is a positive power of 128. |
| Varint.ContRun | libavformat/aviobuf.c:781-790 | The number of leading bytes with bit 7 set, and the first byte below 128 after them. |
| Varint.VarintLength | libavformat/aviobuf.c:378-386 | The value ff_get_v_length computes: at least 1, and exactly 1 for the values below 128. |
| Varint.VarintLengthBounds | libavformat/aviobuf.c:378-386 | ff_get_v_length gives the least number of 7-bit groups that holds the value. |
| Varint.VarintLengthU64 | libavformat/aviobuf.c:378-386 | A 64-bit value takes 1 to 10 groups. |
| Varint.PowMono | libavformat/aviobuf.c:378-386 | Powers of 128 grow with the exponent. |
| Varint.VarintShape | libavformat/aviobuf.c:388-396 | The ff_put_v encoding has get_v_length bytes. Every byte but the last has bit 7 set, and the last is below 128. |
| Varint.VarintAt | libavformat/aviobuf.c:391-395 | Byte j of the encoding is 128 plus group j counted from the top, or the low group for the last byte. |
| Varint.VarintPrefixValue | libavformat/aviobuf.c:781-790 | Decoding the first j bytes of an encoding gives the value without its low length-j groups. |
| Varint.VarintPrefixStep | libavformat/aviobuf.c:786-787 | One decoding step takes a prefix value to the next. |
| Varint.VarintPrefixEmpty | libavformat/aviobuf.c:782 | The empty prefix decodes to 0, the value shifted past all its groups. |
| Varint.VarintByte | libavformat/aviobuf.c:391-395 | The low 7 bits of byte k are group k of the value. |
| Varint.StepArith | libavformat/aviobuf.c:787 | Shifting in the next group extends the decoded prefix. |
| Varint.ShiftInGroup | libavformat/aviobuf.c:787 | The same step for the last group. |
| Varint.VarintRoundTrip | libavformat/aviobuf.c:388-396 | Decoding the encoding of a 64-bit value gives the value back. |
| Varint.ContRunVarint | libavformat/aviobuf.c:781-790 | Followed by anything, an encoding is read up to its own last byte. |
| Varint.ContRunPrefix | libavformat/aviobuf.c:788 | The run of continuation bytes ends at the first byte below 128. |
| Varint.GetVLength | libavformat/aviobuf.c:378-386 | ff_get_v_length returns the number of 7-bit groups of val, between 1 and 10. |
| RoundTrip.ReaderOver | libavformat/aviobuf.c:109-149 | A read context over a stream, at position 0. |
| RoundTrip.Collected | libavformat/aviobuf.c:1172-1200 | Closing a dynamic buffer that is in sync gives exactly the output. |
| RoundTrip.WholeStream | libavformat/aviobuf.c:548-555 | Reading a whole stream yields the stream and ends at its end. |
| RoundTrip.EncodeL16 | libavformat/aviobuf.c:410-414 | avio_wl16 into a dynamic buffer produces the 2 little-endian bytes. |
| RoundTrip.DecodeL16 | libavformat/aviobuf.c:661-667 | avio_rl16 over 2 bytes gives their little-endian value. |
| RoundTrip.RoundTripL16 | libavformat/aviobuf.c:661-667 | avio_rl16 reads back what avio_wl16 wrote, for values below 2^16. |
| RoundTrip.EncodeB16 | libavformat/aviobuf.c:416-420 | avio_wb16 into a dynamic buffer produces the 2 big-endian bytes. |
| RoundTrip.DecodeB16 | libavformat/aviobuf.c:693-699 | avio_rb16 over 2 bytes gives their big-endian value. |
| RoundTrip.RoundTripB16 | libavformat/aviobuf.c:693-699 | avio_rb16 reads back what avio_wb16 wrote, for values below 2^16. |
| RoundTrip.EncodeL24 | libavformat/aviobuf.c:422-426 | avio_wl24 produces the 3 little-endian bytes. |
| RoundTrip.DecodeL24 | libavformat/aviobuf.c:669-675 | avio_rl24 over 3 bytes gives their little-endian value. |
| RoundTrip.RoundTripL24 | libavformat/aviobuf.c:669-675 | avio_rl24 reads back what avio_wl24 wrote, for values below 2^24. |
| RoundTrip.EncodeB24 | libavformat/aviobuf.c:428-432 | avio_wb24 produces the 3 big-endian bytes. |
| RoundTrip.DecodeB24 | libavformat/aviobuf.c:701-707 | avio_rb24 over 3 bytes gives their big-endian value. |
| RoundTrip.RoundTripB24 | libavformat/aviobuf.c:701-707 | avio_rb24 reads back what avio_wb24 wrote, for values below 2^24. |
| RoundTrip.EncodeL32 | libavformat/aviobuf.c:328-334 | avio_wl32 produces the 4 little-endian bytes. |
| RoundTrip.DecodeL32 | libavformat/aviobuf.c:677-683 | avio_rl32 over 4 bytes gives their little-endian value. |
| RoundTrip.RoundTripL32 | libavformat/aviobuf.c:677-683 | avio_rl32 reads back every 32-bit value avio_wl32 wrote. |
| RoundTrip.EncodeB32 | libavformat/aviobuf.c:336-342 | avio_wb32 produces the 4 big-endian bytes. |
| RoundTrip.DecodeB32 | libavformat/aviobuf.c:708-714 | avio_rb32 over 4 bytes gives their big-endian value. |
| RoundTrip.RoundTripB32 | libavformat/aviobuf.c:708-714 | avio_rb32 reads back every 32-bit value avio_wb32 wrote. |
| RoundTrip.EncodeL64 | libavformat/aviobuf.c:398-402 | avio_wl64 produces the 8 little-endian bytes. |
| RoundTrip.DecodeL64 | libavformat/aviobuf.c:685-691 | avio_rl64 over 8 bytes gives their little-endian value. |
| RoundTrip.RoundTripL64 | libavformat/aviobuf.c:685-691 | avio_rl64 reads back every 64-bit value avio_wl64 wrote. |
| RoundTrip.EncodeB64 | libavformat/aviobuf.c:404-408 | avio_wb64 produces the 8 big-endian bytes. |
| RoundTrip.DecodeB64 | libavformat/aviobuf.c:773-779 | avio_rb64 over 8 bytes gives their big-endian value. |
| RoundTrip.RoundTripB64 | libavformat/aviobuf.c:773-779 | avio_rb64 reads back every 64-bit value avio_wb64 wrote. |
| RoundTrip.EncodeVarint | libavformat/aviobuf.c:388-396 | ff_put_v into a dynamic buffer produces exactly the varint encoding. |
| RoundTrip.RoundTripVarint | libavformat/aviobuf.c:781-790 | ffio_read_varlen reads back every 64-bit value ff_put_v wrote, consuming exactly the encoding. |
| RoundTrip.EncodeStr | libavformat/aviobuf.c:344-353 | avio_put_str produces the string and its NUL. |
| RoundTrip.RoundTripStr | libavformat/aviobuf.c:731-747 | avio_get_str reads back a string avio_put_str wrote. It returns its length plus one and restores it with its NUL. |
| RoundTrip.StrLength | libavformat/aviobuf.c:739-741 | The first NUL of a NUL-free string followed by NUL is at its length. |
| RoundTrip.RoundTripLine | libavformat/aviobuf.c:716-729 | ff_get_line reads back a written line that ends in a newline. It returns its length with the newline, and stores it with the newline and a NUL. |
| RoundTrip.LineOf | libavformat/aviobuf.c:716-729 | The first newline or NUL of a line free of both, followed by a newline, is at its length. |

## Left out

- Protocol plumbing is not part of this model, because it reaches into URLContext and the protocols: avio_open/avio_open2, avio_close, ffio_fdopen, the io_* callbacks, avio_pause, avio_seek_time and avio_size.
- AVClass and option handling are configuration only: ff_avio_class and the child iteration.
- The update_checksum hook and ffio_init_checksum / ffio_get_checksum are left out. The checksum functions are foreign code.
- avio_printf and the str16 writers and readers (avio_put_str16le, avio_get_str16le/be, and the str16 part of avio_read_partial) are left out. They need vsnprintf or UTF-16 conversion.
- Allocation failure is not modelled: every av_malloc / av_reallocp succeeds. So AVERROR(ENOMEM), the realloc failure of dyn_buf_write and the size check of url_open_dyn_buf_internal are absent.
- ffio_free_dyn_buf and avio_context_free are left out. They only free memory.
- A context that both reads and writes is not modelled, and neither is the write-flag branch of avio_read_partial.
- NULL-pointer checks are not modelled, including avio_close_dyn_buf(NULL) and a missing buffer.
- The read, write and seek callbacks are oracles. The read source serves its sequence in chunks of unspecified size. An unknown sink accepts or refuses each packet. The seek of an unknown write sink may fail or succeed for any non-negative target.
- The output of a write context is the sequence of bytes handed on, not a file image. After a seek, later bytes are still appended to Output.
- Avio.IOContext.Init: a read context with a read callback needs non-empty contents (buffer_size > 0). ffio_init_context accepts a zero size, and avio_read then reads directly. Every opener in aviobuf.c passes a positive size.
- Avio.IOContext.CallSeek: a read source's seek is taken to succeed only for targets in [0, |input|]. It may fail anywhere. A seek past the end of the stream, which a file's lseek allows, is modelled as a failure. SeekCallback, SeekTo and Seek inherit this.
- Avio.IOContext.Emit: an unknown sink returns the full length or a negative code. A partial non-negative count is not modelled. flush_buffer treats every non-negative result alike.
- Avio.IOContext.ReadIndirect: requires size >= 0. For a negative size the C takes the in-place branch and moves buf_ptr backwards.
- Avio.IOContext.RewindWithProbeData: requires pos <= INT_MAX. Beyond that, the int new_size of the C would overflow.
- What dyn_packet_buf_write stores is tracked by DynBuffer.PacketWrite, but not carried through the context: DynInSync covers dyn_buf_write only.
- The int64 seek offsets are unbounded integers. Overflow of offset + pos in SEEK_CUR is not modelled.
- PADDING_SIZE (AV_INPUT_BUFFER_PADDING_SIZE = 8) comes from avcodec.h, which is not part of this model.
- Bitwise OR and shifts in the readers and writers are modelled as addition and multiplication of the disjoint parts.
- The Blowfish cipher (libavutil/tests/blowfish.c) and the pixel-format descriptors (libavutil/pixdesc.h) are not part of this model.
- AvioSerial.GetStr: requires buf to be distinct from the context's own buffers. The C code does not demand this, but it would not work otherwise.
- AvioSerial.GetLine: requires buf to be distinct from the context's own buffers, like GetStr.
- AvioSerial.PutStr: takes the string without embedded NUL bytes, as a C string is.
