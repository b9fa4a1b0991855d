/** What the serialisers write into a dynamic buffer, the matching readers read
    back: bytes are collected with avio_open_dyn_buf / avio_close_dyn_buf and
    then served by a read context whose read_packet returns them. */
module RoundTrip {
  import opened Bytes
  import opened AvioConsts
  import opened DynBuf
  import opened Avio
  import opened DynIO
  import opened AvioSerial
  import Varint

  /** A read context of IO_BUFFER_SIZE bytes whose read_packet yields data, then
      AVERROR_EOF. */
  method ReaderOver(data: seq<byte>) returns (s: IOContext)
    ensures fresh(s) && fresh(s.buffer) && fresh(s.dyn) && fresh(s.dyn.buffer)
    ensures s.Inv() && !s.writeFlag && s.View == data && s.Tell() == 0
  {
    s := new IOContext.Init(Repeat(0, IO_BUFFER_SIZE), false, NoWriter, NoSeek, true, data, AVERROR_EOF);
  }

  /** The bytes a fresh dynamic buffer hands back after val's encoding. */
  method Collected(s: IOContext, ghost code: seq<byte>) returns (data: seq<byte>)
    requires s.Valid() && s.writeFlag && s.maxPacketSize == 0 && s.DynInSync()
    requires s.Output() == code && |code| + PADDING_SIZE <= INT_MAX / 2
    modifies s, s.buffer, s.dyn, s.dyn.buffer
    ensures data == code
  {
    var arr, len := CloseDynBuf(s);
    data := arr[..len];
  }

  /** A reader at the start of data that takes all of it. */
  lemma WholeStream(v: seq<byte>)
    ensures Lookahead(v, 0, |v|) == v && Advance(v, 0, |v|) == |v|
  {
  }

  /** The bytes avio_wl16 leaves in a dynamic buffer: the 2 little-endian bytes of val. */
  method EncodeL16(val: u32) returns (data: seq<byte>)
    ensures data == LE(val, 2)
  {
    var w := OpenDynBuf();
    WL16(w, val);
    data := Collected(w, LE(val, 2));
  }

  /** What avio_rl16 yields on a stream of 2 bytes: their little-endian value. */
  method DecodeL16(data: seq<byte>) returns (r: u32)
    requires |data| == 2
    ensures r == FromLE(data)
  {
    var s := ReaderOver(data);
    r := RL16(s);
    WholeStream(data);
  }

  /** avio_rl16 reads back what avio_wl16 wrote. */
  method RoundTripL16(val: u32) returns (r: u32)
    requires val < 0x1_0000
    ensures r == val
  {
    var data := EncodeL16(val);
    r := DecodeL16(data);
    Powers();
    LERoundTripExact(val, 2);
  }

  /** The bytes avio_wb16 leaves in a dynamic buffer: the 2 big-endian bytes of val. */
  method EncodeB16(val: u32) returns (data: seq<byte>)
    ensures data == BE(val, 2)
  {
    var w := OpenDynBuf();
    WB16(w, val);
    data := Collected(w, BE(val, 2));
  }

  /** What avio_rb16 yields on a stream of 2 bytes: their big-endian value. */
  method DecodeB16(data: seq<byte>) returns (r: u32)
    requires |data| == 2
    ensures r == FromBE(data)
  {
    var s := ReaderOver(data);
    r := RB16(s);
    WholeStream(data);
  }

  /** avio_rb16 reads back what avio_wb16 wrote. */
  method RoundTripB16(val: u32) returns (r: u32)
    requires val < 0x1_0000
    ensures r == val
  {
    var data := EncodeB16(val);
    r := DecodeB16(data);
    Powers();
    BERoundTripExact(val, 2);
  }

  /** The bytes avio_wl24 leaves in a dynamic buffer: the 3 little-endian bytes of val. */
  method EncodeL24(val: u32) returns (data: seq<byte>)
    ensures data == LE(val, 3)
  {
    var w := OpenDynBuf();
    WL24(w, val);
    data := Collected(w, LE(val, 3));
  }

  /** What avio_rl24 yields on a stream of 3 bytes: their little-endian value. */
  method DecodeL24(data: seq<byte>) returns (r: u32)
    requires |data| == 3
    ensures r == FromLE(data)
  {
    var s := ReaderOver(data);
    r := RL24(s);
    WholeStream(data);
  }

  /** avio_rl24 reads back what avio_wl24 wrote. */
  method RoundTripL24(val: u32) returns (r: u32)
    requires val < 0x100_0000
    ensures r == val
  {
    var data := EncodeL24(val);
    r := DecodeL24(data);
    assert Pow256(3) == 0x100_0000;
    LERoundTripExact(val, 3);
  }

  /** The bytes avio_wb24 leaves in a dynamic buffer: the 3 big-endian bytes of val. */
  method EncodeB24(val: u32) returns (data: seq<byte>)
    ensures data == BE(val, 3)
  {
    var w := OpenDynBuf();
    WB24(w, val);
    data := Collected(w, BE(val, 3));
  }

  /** What avio_rb24 yields on a stream of 3 bytes: their big-endian value. */
  method DecodeB24(data: seq<byte>) returns (r: u32)
    requires |data| == 3
    ensures r == FromBE(data)
  {
    var s := ReaderOver(data);
    r := RB24(s);
    WholeStream(data);
  }

  /** avio_rb24 reads back what avio_wb24 wrote. */
  method RoundTripB24(val: u32) returns (r: u32)
    requires val < 0x100_0000
    ensures r == val
  {
    var data := EncodeB24(val);
    r := DecodeB24(data);
    assert Pow256(3) == 0x100_0000;
    BERoundTripExact(val, 3);
  }

  /** The bytes avio_wl32 leaves in a dynamic buffer: the 4 little-endian bytes of val. */
  method EncodeL32(val: u32) returns (data: seq<byte>)
    ensures data == LE(val, 4)
  {
    var w := OpenDynBuf();
    WL32(w, val);
    data := Collected(w, LE(val, 4));
  }

  /** What avio_rl32 yields on a stream of 4 bytes: their little-endian value. */
  method DecodeL32(data: seq<byte>) returns (r: u32)
    requires |data| == 4
    ensures r == FromLE(data)
  {
    var s := ReaderOver(data);
    r := RL32(s);
    WholeStream(data);
  }

  /** avio_rl32 reads back what avio_wl32 wrote. */
  method RoundTripL32(val: u32) returns (r: u32)
    ensures r == val
  {
    var data := EncodeL32(val);
    r := DecodeL32(data);
    Powers();
    LERoundTripExact(val, 4);
  }

  /** The bytes avio_wb32 leaves in a dynamic buffer: the 4 big-endian bytes of val. */
  method EncodeB32(val: u32) returns (data: seq<byte>)
    ensures data == BE(val, 4)
  {
    var w := OpenDynBuf();
    WB32(w, val);
    data := Collected(w, BE(val, 4));
  }

  /** What avio_rb32 yields on a stream of 4 bytes: their big-endian value. */
  method DecodeB32(data: seq<byte>) returns (r: u32)
    requires |data| == 4
    ensures r == FromBE(data)
  {
    var s := ReaderOver(data);
    r := RB32(s);
    WholeStream(data);
  }

  /** avio_rb32 reads back what avio_wb32 wrote. */
  method RoundTripB32(val: u32) returns (r: u32)
    ensures r == val
  {
    var data := EncodeB32(val);
    r := DecodeB32(data);
    Powers();
    BERoundTripExact(val, 4);
  }

  /** The bytes avio_wl64 leaves in a dynamic buffer: the 8 little-endian bytes of val. */
  method EncodeL64(val: u64) returns (data: seq<byte>)
    ensures data == LE(val, 8)
  {
    var w := OpenDynBuf();
    WL64(w, val);
    data := Collected(w, LE(val, 8));
  }

  /** What avio_rl64 yields on a stream of 8 bytes: their little-endian value. */
  method DecodeL64(data: seq<byte>) returns (r: u64)
    requires |data| == 8
    ensures r == FromLE(data)
  {
    var s := ReaderOver(data);
    r := RL64(s);
    WholeStream(data);
  }

  /** avio_rl64 reads back what avio_wl64 wrote. */
  method RoundTripL64(val: u64) returns (r: u64)
    ensures r == val
  {
    var data := EncodeL64(val);
    r := DecodeL64(data);
    Powers();
    LERoundTripExact(val, 8);
  }

  /** The bytes avio_wb64 leaves in a dynamic buffer: the 8 big-endian bytes of val. */
  method EncodeB64(val: u64) returns (data: seq<byte>)
    ensures data == BE(val, 8)
  {
    var w := OpenDynBuf();
    WB64(w, val);
    data := Collected(w, BE(val, 8));
  }

  /** What avio_rb64 yields on a stream of 8 bytes: their big-endian value. */
  method DecodeB64(data: seq<byte>) returns (r: u64)
    requires |data| == 8
    ensures r == FromBE(data)
  {
    var s := ReaderOver(data);
    r := RB64(s);
    WholeStream(data);
  }

  /** avio_rb64 reads back what avio_wb64 wrote. */
  method RoundTripB64(val: u64) returns (r: u64)
    ensures r == val
  {
    var data := EncodeB64(val);
    r := DecodeB64(data);
    Powers();
    BERoundTripExact(val, 8);
  }

  /** The bytes ff_put_v leaves in a dynamic buffer: the code of val. */
  method EncodeVarint(val: u64) returns (data: seq<byte>)
    ensures data == Varint.Varint(val)
  {
    var w := OpenDynBuf();
    Varint.VarintLengthU64(val);
    PutV(w, val);
    data := Collected(w, Varint.Varint(val));
  }

  /** ffio_read_varlen reads back what ff_put_v wrote, and stops after it. */
  method RoundTripVarint(val: u64) returns (r: u64, used: int)
    ensures r == val && used == |Varint.Varint(val)|
  {
    var data := EncodeVarint(val);
    var s := ReaderOver(data);
    assert data[0..|data|] == data;
    ReadVarlenOfPutV(data, 0, val);
    r := ReadVarlen(s);
    used := s.Tell();
  }

  /** The bytes avio_put_str leaves in a dynamic buffer: str and a NUL. */
  method EncodeStr(str: seq<byte>) returns (data: seq<byte>)
    requires |str| + 1 + PADDING_SIZE <= INT_MAX / 2
    requires forall i :: 0 <= i < |str| ==> str[i] != 0
    ensures data == str + [0]
  {
    var w := OpenDynBuf();
    var len := PutStr(w, Some(str));
    data := Collected(w, str + [0]);
  }

  /** avio_get_str reads back what avio_put_str wrote, into a buffer with room
      for the string and its NUL. */
  method RoundTripStr(str: seq<byte>) returns (ret: int, text: seq<byte>)
    requires |str| + 1 + PADDING_SIZE <= INT_MAX / 2
    requires forall i :: 0 <= i < |str| ==> str[i] != 0
    ensures ret == |str| + 1 && text == str + [0]
  {
    var data := EncodeStr(str);
    var s := ReaderOver(data);
    var buf := new byte[|str| + 1];
    WholeStream(data);
    StrLength(str);
    ret := GetStr(s, |str| + 1, buf, |str| + 1);
    text := buf[..];
  }

  /** The C string in str + [0] is str. */
  lemma StrLength(str: seq<byte>)
    requires forall i :: 0 <= i < |str| ==> str[i] != 0
    ensures FirstNul(str + [0]) == |str|
  {
    var s := str + [0];
    assert s[|str|] == 0 && forall i :: 0 <= i < |str| ==> s[i] == str[i];
  }

  /** ff_get_line reads back a line written with avio_write: its bytes and its
      line feed, then the NUL it adds. */
  method RoundTripLine(text: seq<byte>) returns (ret: int, line: seq<byte>)
    requires |text| + 1 + PADDING_SIZE <= INT_MAX / 2
    requires forall i :: 0 <= i < |text| ==> text[i] != 10 && text[i] != 0
    ensures ret == |text| + 1 && line == text + [10, 0]
  {
    var data := DynBufContents(text + [10]);
    var s := ReaderOver(data);
    var buf := new byte[|text| + 2];
    LineOf(text);
    ret := GetLine(s, buf, |text| + 2);
    line := buf[..];
    assert forall i :: 0 <= i < |text| + 1 ==> line[i] == (text + [10, 0])[i];
  }

  /** A stream holding text and a line feed holds one line. */
  lemma LineOf(text: seq<byte>)
    requires forall i :: 0 <= i < |text| ==> text[i] != 10 && text[i] != 0
    ensures LineEnd(Rest(text + [10], 0)) == |text|
  {
    var l := Rest(text + [10], 0);
    assert l[|text|] == 10 && forall i :: 0 <= i < |text| ==> l[i] == text[i];
  }
}
