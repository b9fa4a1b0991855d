/** The integer and string serialisers over a context: avio_wl* / avio_wb* and
    avio_rl* / avio_rb* built from avio_w8 and avio_r8, the base-128 code of
    ff_put_v / ffio_read_varlen, and the NUL-terminated strings of
    avio_put_str, avio_get_str and ff_get_line. Shifts of unsigned values are
    divisions by powers of two, bitwise ORs of disjoint bit ranges are sums, and
    avio_w8 keeps the low byte of its argument. */
module AvioSerial {
  import opened Bytes
  import opened AvioConsts
  import opened DynBuf
  import opened Avio
  import opened Varint

  datatype Option<T> = None | Some(value: T)

  // -------------------------------------------------------------------------
  // Writers. Each appends its encoding to the output, with the guarantees of
  // IOContext.Write.

  /** avio_wl16: the low 16 bits, least significant byte first. */
  method WL16(s: IOContext, val: u32)
    requires s.Valid() && s.writeFlag
    modifies s`bufPtr, s`pos, s`error, s`written, s`currentType, s`lastTime,
             s`Flushed, s`Sent, s`SentBytes, s.buffer, s.dyn, s.dyn.buffer
    ensures s.Valid() && (s.dyn.buffer == old(s.dyn.buffer) || fresh(s.dyn.buffer))
    ensures s.Output() == old(s.Output()) + LE(val, 2) && s.Tell() == old(s.Tell()) + 2
    ensures old(s.error) != 0 ==> s.error == old(s.error) && s.Sent == old(s.Sent)
    ensures old(s.DynInSync()) && |old(s.Output())| + 2 <= INT_MAX / 2 ==> s.DynInSync()
    ensures old(s.CountInSync()) ==> s.CountInSync()
  {
    s.W8(val);
    s.W8(val / 0x100);
    assert LE(val, 2) == [val % 256, (val / 256) % 256];
  }

  /** avio_wb16: the low 16 bits, most significant byte first. */
  method WB16(s: IOContext, val: u32)
    requires s.Valid() && s.writeFlag
    modifies s`bufPtr, s`pos, s`error, s`written, s`currentType, s`lastTime,
             s`Flushed, s`Sent, s`SentBytes, s.buffer, s.dyn, s.dyn.buffer
    ensures s.Valid() && (s.dyn.buffer == old(s.dyn.buffer) || fresh(s.dyn.buffer))
    ensures s.Output() == old(s.Output()) + BE(val, 2) && s.Tell() == old(s.Tell()) + 2
    ensures old(s.error) != 0 ==> s.error == old(s.error) && s.Sent == old(s.Sent)
    ensures old(s.DynInSync()) && |old(s.Output())| + 2 <= INT_MAX / 2 ==> s.DynInSync()
    ensures old(s.CountInSync()) ==> s.CountInSync()
  {
    s.W8(val / 0x100);
    s.W8(val);
    assert BE(val, 2) == [(val / 256) % 256, val % 256];
  }

  /** avio_wl24: avio_wl16 of the low 16 bits, then bits 16..23. */
  method WL24(s: IOContext, val: u32)
    requires s.Valid() && s.writeFlag
    modifies s`bufPtr, s`pos, s`error, s`written, s`currentType, s`lastTime,
             s`Flushed, s`Sent, s`SentBytes, s.buffer, s.dyn, s.dyn.buffer
    ensures s.Valid() && (s.dyn.buffer == old(s.dyn.buffer) || fresh(s.dyn.buffer))
    ensures s.Output() == old(s.Output()) + LE(val, 3) && s.Tell() == old(s.Tell()) + 3
    ensures old(s.error) != 0 ==> s.error == old(s.error) && s.Sent == old(s.Sent)
    ensures old(s.DynInSync()) && |old(s.Output())| + 3 <= INT_MAX / 2 ==> s.DynInSync()
    ensures old(s.CountInSync()) ==> s.CountInSync()
  {
    WL16(s, val % 0x1_0000);
    s.W8(val / 0x1_0000);
    LEConcat(val, 2, 1);
    LEMod(val, 2);
  }

  /** avio_wb24: avio_wb16 of bits 8..23, then the low byte. */
  method WB24(s: IOContext, val: u32)
    requires s.Valid() && s.writeFlag
    modifies s`bufPtr, s`pos, s`error, s`written, s`currentType, s`lastTime,
             s`Flushed, s`Sent, s`SentBytes, s.buffer, s.dyn, s.dyn.buffer
    ensures s.Valid() && (s.dyn.buffer == old(s.dyn.buffer) || fresh(s.dyn.buffer))
    ensures s.Output() == old(s.Output()) + BE(val, 3) && s.Tell() == old(s.Tell()) + 3
    ensures old(s.error) != 0 ==> s.error == old(s.error) && s.Sent == old(s.Sent)
    ensures old(s.DynInSync()) && |old(s.Output())| + 3 <= INT_MAX / 2 ==> s.DynInSync()
    ensures old(s.CountInSync()) ==> s.CountInSync()
  {
    WB16(s, val / 0x100);
    s.W8(val);
  }

  /** avio_wl32: the four bytes of val, least significant first. */
  method WL32(s: IOContext, val: u32)
    requires s.Valid() && s.writeFlag
    modifies s`bufPtr, s`pos, s`error, s`written, s`currentType, s`lastTime,
             s`Flushed, s`Sent, s`SentBytes, s.buffer, s.dyn, s.dyn.buffer
    ensures s.Valid() && (s.dyn.buffer == old(s.dyn.buffer) || fresh(s.dyn.buffer))
    ensures s.Output() == old(s.Output()) + LE(val, 4) && s.Tell() == old(s.Tell()) + 4
    ensures old(s.error) != 0 ==> s.error == old(s.error) && s.Sent == old(s.Sent)
    ensures old(s.DynInSync()) && |old(s.Output())| + 4 <= INT_MAX / 2 ==> s.DynInSync()
    ensures old(s.CountInSync()) ==> s.CountInSync()
  {
    s.W8(val);
    s.W8(val / 0x100);
    s.W8(val / 0x1_0000);
    s.W8(val / 0x100_0000);
    LE4(val);
  }

  /** avio_wb32: the four bytes of val, most significant first. */
  method WB32(s: IOContext, val: u32)
    requires s.Valid() && s.writeFlag
    modifies s`bufPtr, s`pos, s`error, s`written, s`currentType, s`lastTime,
             s`Flushed, s`Sent, s`SentBytes, s.buffer, s.dyn, s.dyn.buffer
    ensures s.Valid() && (s.dyn.buffer == old(s.dyn.buffer) || fresh(s.dyn.buffer))
    ensures s.Output() == old(s.Output()) + BE(val, 4) && s.Tell() == old(s.Tell()) + 4
    ensures old(s.error) != 0 ==> s.error == old(s.error) && s.Sent == old(s.Sent)
    ensures old(s.DynInSync()) && |old(s.Output())| + 4 <= INT_MAX / 2 ==> s.DynInSync()
    ensures old(s.CountInSync()) ==> s.CountInSync()
  {
    s.W8(val / 0x100_0000);
    s.W8(val / 0x1_0000);
    s.W8(val / 0x100);
    s.W8(val);
    BE4(val);
  }

  /** avio_wl64: avio_wl32 of the low half, then of the high half. */
  method WL64(s: IOContext, val: u64)
    requires s.Valid() && s.writeFlag
    modifies s`bufPtr, s`pos, s`error, s`written, s`currentType, s`lastTime,
             s`Flushed, s`Sent, s`SentBytes, s.buffer, s.dyn, s.dyn.buffer
    ensures s.Valid() && (s.dyn.buffer == old(s.dyn.buffer) || fresh(s.dyn.buffer))
    ensures s.Output() == old(s.Output()) + LE(val, 8) && s.Tell() == old(s.Tell()) + 8
    ensures old(s.error) != 0 ==> s.error == old(s.error) && s.Sent == old(s.Sent)
    ensures old(s.DynInSync()) && |old(s.Output())| + 8 <= INT_MAX / 2 ==> s.DynInSync()
    ensures old(s.CountInSync()) ==> s.CountInSync()
  {
    Halves(val);
    WL32(s, val % TWO_32);
    WL32(s, val / TWO_32);
    LEConcat(val, 4, 4);
    LEMod(val, 4);
  }

  /** avio_wb64: avio_wb32 of the high half, then of the low half. */
  method WB64(s: IOContext, val: u64)
    requires s.Valid() && s.writeFlag
    modifies s`bufPtr, s`pos, s`error, s`written, s`currentType, s`lastTime,
             s`Flushed, s`Sent, s`SentBytes, s.buffer, s.dyn, s.dyn.buffer
    ensures s.Valid() && (s.dyn.buffer == old(s.dyn.buffer) || fresh(s.dyn.buffer))
    ensures s.Output() == old(s.Output()) + BE(val, 8) && s.Tell() == old(s.Tell()) + 8
    ensures old(s.error) != 0 ==> s.error == old(s.error) && s.Sent == old(s.Sent)
    ensures old(s.DynInSync()) && |old(s.Output())| + 8 <= INT_MAX / 2 ==> s.DynInSync()
    ensures old(s.CountInSync()) ==> s.CountInSync()
  {
    Halves(val);
    WB32(s, val / TWO_32);
    WB32(s, val % TWO_32);
    BEConcat(val, 4, 4);
    BEMod(val, 4);
  }

  /** The four little-endian bytes of a value, spelled out. */
  lemma LE4(v: nat)
    ensures LE(v, 4) == [v % 256, (v / 0x100) % 256, (v / 0x1_0000) % 256, (v / 0x100_0000) % 256]
  {
    assert Pow256(2) == 0x1_0000 && Pow256(3) == 0x100_0000;
    LEAt(v, 4, 0);
    LEAt(v, 4, 1);
    LEAt(v, 4, 2);
    LEAt(v, 4, 3);
  }

  /** The four big-endian bytes of a value, spelled out. */
  lemma BE4(v: nat)
    ensures BE(v, 4) == [(v / 0x100_0000) % 256, (v / 0x1_0000) % 256, (v / 0x100) % 256, v % 256]
  {
    assert Pow256(2) == 0x1_0000 && Pow256(3) == 0x100_0000;
    BEAt(v, 4, 0);
    BEAt(v, 4, 1);
    BEAt(v, 4, 2);
    BEAt(v, 4, 3);
  }

  /** The two 32-bit halves of a 64-bit value. */
  lemma Halves(v: u64)
    ensures 0 <= v % TWO_32 < TWO_32 && 0 <= v / TWO_32 < TWO_32
    ensures Pow256(4) == TWO_32 && Above(v, 4) == v / TWO_32
  {
  }

  /** ff_put_v: the groups of val from the most significant down, each with bit 7
      set, then the low group with bit 7 clear (val & 127). */
  method PutV(s: IOContext, val: u64)
    requires s.Valid() && s.writeFlag
    modifies s`bufPtr, s`pos, s`error, s`written, s`currentType, s`lastTime,
             s`Flushed, s`Sent, s`SentBytes, s.buffer, s.dyn, s.dyn.buffer
    ensures s.Valid() && (s.dyn.buffer == old(s.dyn.buffer) || fresh(s.dyn.buffer))
    ensures s.Output() == old(s.Output()) + Varint.Varint(val) && s.Tell() == old(s.Tell()) + |Varint.Varint(val)|
    ensures old(s.error) != 0 ==> s.error == old(s.error) && s.Sent == old(s.Sent)
    ensures old(s.DynInSync()) && |old(s.Output())| + |Varint.Varint(val)| <= INT_MAX / 2 ==> s.DynInSync()
    ensures old(s.CountInSync()) ==> s.CountInSync()
  {
    var i := GetVLength(val);
    ghost var code, start := Varint.Varint(val), s.Output();
    PutGroups(s, val, i);
    ghost var mid := s.Output();
    VarintAt(val, i - 1);
    s.W8(val % 128);
    AppendLast(start, code, mid, s.Output());
  }

  /** The while (--i > 0) loop of ff_put_v, i starting at VarintLength(val): byte
      128 | (val >> 7i) keeps group i, with bit 7 set, in its low byte. */
  method PutGroups(s: IOContext, val: u64, n: int)
    requires s.Valid() && s.writeFlag && n == VarintLength(val)
    modifies s`bufPtr, s`pos, s`error, s`written, s`currentType, s`lastTime,
             s`Flushed, s`Sent, s`SentBytes, s.buffer, s.dyn, s.dyn.buffer
    ensures s.Valid() && (s.dyn.buffer == old(s.dyn.buffer) || fresh(s.dyn.buffer))
    ensures s.Output() == old(s.Output()) + Varint.Varint(val)[..n - 1] && s.Tell() == old(s.Tell()) + (n - 1)
    ensures old(s.error) != 0 ==> s.error == old(s.error) && s.Sent == old(s.Sent)
    ensures old(s.DynInSync()) && |old(s.Output())| + n <= INT_MAX / 2 ==> s.DynInSync()
    ensures old(s.CountInSync()) ==> s.CountInSync()
  {
    ghost var code, start := Varint.Varint(val), s.Output();
    ghost var j := 0;
    var i := n - 1;
    while i > 0
      invariant 0 <= i < n && j == n - 1 - i && |code| == n
      invariant s.Valid() && (s.dyn.buffer == old(s.dyn.buffer) || fresh(s.dyn.buffer))
      invariant s.Output() == start + code[..j] && s.Tell() == old(s.Tell()) + j
      invariant old(s.error) != 0 ==> s.error == old(s.error) && s.Sent == old(s.Sent)
      invariant old(s.DynInSync()) && |old(s.Output())| + n <= INT_MAX / 2 ==> s.DynInSync()
      invariant old(s.CountInSync()) ==> s.CountInSync()
    {
      var b := 128 + (val / Pow128(i)) % 128;
      VarintAt(val, j);
      assert code[j] == b;
      ghost var before := s.Output();
      s.W8(b);
      AppendNext(start, code, j, before, s.Output());
      i, j := i - 1, j + 1;
    }
  }

  /** Output that grew by the first j bytes of a code, then by byte j, grew by
      the first j + 1 bytes. */
  lemma AppendNext(start: seq<byte>, code: seq<byte>, j: nat, before: seq<byte>, after: seq<byte>)
    requires j < |code| && before == start + code[..j] && after == before + [code[j] % 256]
    ensures after == start + code[..j + 1]
  {
    assert code[..j + 1] == code[..j] + [code[j]];
  }

  /** Output that grew by all but the last byte of a code, then by its last byte,
      grew by the code. */
  lemma AppendLast(start: seq<byte>, code: seq<byte>, mid: seq<byte>, out: seq<byte>)
    requires |code| > 0 && mid == start + code[..|code| - 1] && out == mid + [code[|code| - 1] % 256]
    ensures out == start + code
  {
    assert code == code[..|code| - 1] + [code[|code| - 1]];
  }

  /** avio_put_str: the string and its NUL terminator (a lone NUL for a null
      pointer); the result counts the bytes written. */
  method PutStr(s: IOContext, str: Option<seq<byte>>) returns (len: int)
    requires s.Valid() && s.writeFlag
    requires str.Some? ==> |str.value| < INT_MAX && forall i :: 0 <= i < |str.value| ==> str.value[i] != 0
    modifies s`bufPtr, s`pos, s`error, s`written, s`currentType, s`lastTime,
             s`Flushed, s`Sent, s`SentBytes, s.buffer, s.dyn, s.dyn.buffer
    ensures s.Valid() && (s.dyn.buffer == old(s.dyn.buffer) || fresh(s.dyn.buffer))
    ensures var text := if str.Some? then str.value else [];
      s.Output() == old(s.Output()) + text + [0] && len == |text| + 1 && s.Tell() == old(s.Tell()) + len
    ensures old(s.error) != 0 ==> s.error == old(s.error) && s.Sent == old(s.Sent)
    ensures old(s.DynInSync()) && |old(s.Output())| + len <= INT_MAX / 2 ==> s.DynInSync()
    ensures old(s.CountInSync()) ==> s.CountInSync()
  {
    len := 1;
    if str.Some? {
      len := len + |str.value|;
      s.Write(str.value + [0]);
    } else {
      s.W8(0);
    }
  }

  // -------------------------------------------------------------------------
  // Readers. Each takes its bytes from where the context stands with
  // avio_r8, which yields 0 once the stream has ended.

  /** The value of one byte read, in either byte order. */
  lemma ReadOne(v: seq<byte>, t: nat)
    requires t <= |v|
    ensures FromLE(Lookahead(v, t, 1)) == Lookahead(v, t, 1)[0] == FromBE(Lookahead(v, t, 1))
  {
    var l := Lookahead(v, t, 1);
    assert l[1..] == [] && l[..0] == [];
  }

  /** n bytes read, then m more, as one little-endian value: the later bytes
      are the more significant. */
  lemma JoinLE(v: seq<byte>, t: nat, n: nat, m: nat, x: nat, y: nat)
    requires t <= |v| && x == FromLE(Lookahead(v, t, n)) && y == FromLE(Lookahead(v, Advance(v, t, n), m))
    ensures FromLE(Lookahead(v, t, n + m)) == x + Pow256(n) * y
    ensures x < Pow256(n) && y < Pow256(m)
    ensures Advance(v, Advance(v, t, n), m) == Advance(v, t, n + m)
  {
    LookaheadSplit(v, t, n, m);
    FromLEAppend(Lookahead(v, t, n), Lookahead(v, Advance(v, t, n), m));
    FromLEBound(Lookahead(v, t, n));
    FromLEBound(Lookahead(v, Advance(v, t, n), m));
  }

  /** n bytes read, then m more, as one big-endian value: the earlier bytes
      are the more significant. */
  lemma JoinBE(v: seq<byte>, t: nat, n: nat, m: nat, x: nat, y: nat)
    requires t <= |v| && x == FromBE(Lookahead(v, t, n)) && y == FromBE(Lookahead(v, Advance(v, t, n), m))
    ensures FromBE(Lookahead(v, t, n + m)) == x * Pow256(m) + y
    ensures x < Pow256(n) && y < Pow256(m)
    ensures Advance(v, Advance(v, t, n), m) == Advance(v, t, n + m)
  {
    LookaheadSplit(v, t, n, m);
    FromBEAppend(Lookahead(v, t, n), Lookahead(v, Advance(v, t, n), m));
    FromBEBound(Lookahead(v, t, n));
    FromBEBound(Lookahead(v, Advance(v, t, n), m));
  }

  /** The powers the readers shift by. */
  lemma Powers()
    ensures Pow256(1) == 0x100 && Pow256(2) == 0x1_0000 && Pow256(4) == TWO_32 && Pow256(8) == TWO_64
  {
    PowAdd(4, 4);
  }

  /** avio_rl16: a byte, then one more as bits 8..15. */
  method RL16(s: IOContext) returns (r: u32)
    requires s.Inv() && !s.writeFlag
    modifies s`bufPtr, s`bufEnd, s`pos, s`eofReached, s`error, s`srcPos, s`buffer, s`bufferSize, s.buffer
    ensures s.Inv() && (s.buffer == old(s.buffer) || fresh(s.buffer))
    ensures r == FromLE(Lookahead(s.View, old(s.Tell()), 2)) && s.Tell() == Advance(s.View, old(s.Tell()), 2)
    ensures s.error == old(s.error) || s.error == s.srcStatus
  {
    ghost var t := s.Tell();
    var a: int := s.R8();
    var b: int := s.R8();
    ReadOne(s.View, t);
    ReadOne(s.View, Advance(s.View, t, 1));
    JoinLE(s.View, t, 1, 1, a, b);
    Powers();
    r := a + b * 0x100;
  }

  /** avio_rl24: avio_rl16, then a byte as bits 16..23. */
  method RL24(s: IOContext) returns (r: u32)
    requires s.Inv() && !s.writeFlag
    modifies s`bufPtr, s`bufEnd, s`pos, s`eofReached, s`error, s`srcPos, s`buffer, s`bufferSize, s.buffer
    ensures s.Inv() && (s.buffer == old(s.buffer) || fresh(s.buffer))
    ensures r == FromLE(Lookahead(s.View, old(s.Tell()), 3)) && s.Tell() == Advance(s.View, old(s.Tell()), 3)
    ensures s.error == old(s.error) || s.error == s.srcStatus
  {
    ghost var t := s.Tell();
    var lo := RL16(s);
    var hi: int := s.R8();
    ReadOne(s.View, Advance(s.View, t, 2));
    JoinLE(s.View, t, 2, 1, lo, hi);
    Powers();
    r := lo + hi * 0x1_0000;
  }

  /** avio_rl32: avio_rl16 twice, the second as the high half. */
  method RL32(s: IOContext) returns (r: u32)
    requires s.Inv() && !s.writeFlag
    modifies s`bufPtr, s`bufEnd, s`pos, s`eofReached, s`error, s`srcPos, s`buffer, s`bufferSize, s.buffer
    ensures s.Inv() && (s.buffer == old(s.buffer) || fresh(s.buffer))
    ensures r == FromLE(Lookahead(s.View, old(s.Tell()), 4)) && s.Tell() == Advance(s.View, old(s.Tell()), 4)
    ensures s.error == old(s.error) || s.error == s.srcStatus
  {
    ghost var t := s.Tell();
    var lo := RL16(s);
    var hi := RL16(s);
    JoinLE(s.View, t, 2, 2, lo, hi);
    Powers();
    r := lo + hi * 0x1_0000;
  }

  /** avio_rl64: avio_rl32 twice, the second as the high half. */
  method RL64(s: IOContext) returns (r: u64)
    requires s.Inv() && !s.writeFlag
    modifies s`bufPtr, s`bufEnd, s`pos, s`eofReached, s`error, s`srcPos, s`buffer, s`bufferSize, s.buffer
    ensures s.Inv() && (s.buffer == old(s.buffer) || fresh(s.buffer))
    ensures r == FromLE(Lookahead(s.View, old(s.Tell()), 8)) && s.Tell() == Advance(s.View, old(s.Tell()), 8)
    ensures s.error == old(s.error) || s.error == s.srcStatus
  {
    ghost var t := s.Tell();
    var lo := RL32(s);
    var hi := RL32(s);
    JoinLE(s.View, t, 4, 4, lo, hi);
    Powers();
    r := lo + hi * TWO_32;
  }

  /** avio_rb16: a byte as bits 8..15, then the low byte. */
  method RB16(s: IOContext) returns (r: u32)
    requires s.Inv() && !s.writeFlag
    modifies s`bufPtr, s`bufEnd, s`pos, s`eofReached, s`error, s`srcPos, s`buffer, s`bufferSize, s.buffer
    ensures s.Inv() && (s.buffer == old(s.buffer) || fresh(s.buffer))
    ensures r == FromBE(Lookahead(s.View, old(s.Tell()), 2)) && s.Tell() == Advance(s.View, old(s.Tell()), 2)
    ensures s.error == old(s.error) || s.error == s.srcStatus
  {
    ghost var t := s.Tell();
    var a: int := s.R8();
    var b: int := s.R8();
    ReadOne(s.View, t);
    ReadOne(s.View, Advance(s.View, t, 1));
    JoinBE(s.View, t, 1, 1, a, b);
    Powers();
    r := a * 0x100 + b;
  }

  /** avio_rb24: avio_rb16 as bits 8..23, then the low byte. */
  method RB24(s: IOContext) returns (r: u32)
    requires s.Inv() && !s.writeFlag
    modifies s`bufPtr, s`bufEnd, s`pos, s`eofReached, s`error, s`srcPos, s`buffer, s`bufferSize, s.buffer
    ensures s.Inv() && (s.buffer == old(s.buffer) || fresh(s.buffer))
    ensures r == FromBE(Lookahead(s.View, old(s.Tell()), 3)) && s.Tell() == Advance(s.View, old(s.Tell()), 3)
    ensures s.error == old(s.error) || s.error == s.srcStatus
  {
    ghost var t := s.Tell();
    var hi := RB16(s);
    var lo: int := s.R8();
    ReadOne(s.View, Advance(s.View, t, 2));
    JoinBE(s.View, t, 2, 1, hi, lo);
    Powers();
    r := hi * 0x100 + lo;
  }

  /** avio_rb32: avio_rb16 twice, the first as the high half. */
  method RB32(s: IOContext) returns (r: u32)
    requires s.Inv() && !s.writeFlag
    modifies s`bufPtr, s`bufEnd, s`pos, s`eofReached, s`error, s`srcPos, s`buffer, s`bufferSize, s.buffer
    ensures s.Inv() && (s.buffer == old(s.buffer) || fresh(s.buffer))
    ensures r == FromBE(Lookahead(s.View, old(s.Tell()), 4)) && s.Tell() == Advance(s.View, old(s.Tell()), 4)
    ensures s.error == old(s.error) || s.error == s.srcStatus
  {
    ghost var t := s.Tell();
    var hi := RB16(s);
    var lo := RB16(s);
    JoinBE(s.View, t, 2, 2, hi, lo);
    Powers();
    r := hi * 0x1_0000 + lo;
  }

  /** avio_rb64: avio_rb32 twice, the first as the high half. */
  method RB64(s: IOContext) returns (r: u64)
    requires s.Inv() && !s.writeFlag
    modifies s`bufPtr, s`bufEnd, s`pos, s`eofReached, s`error, s`srcPos, s`buffer, s`bufferSize, s.buffer
    ensures s.Inv() && (s.buffer == old(s.buffer) || fresh(s.buffer))
    ensures r == FromBE(Lookahead(s.View, old(s.Tell()), 8)) && s.Tell() == Advance(s.View, old(s.Tell()), 8)
    ensures s.error == old(s.error) || s.error == s.srcStatus
  {
    ghost var t := s.Tell();
    var hi := RB32(s);
    var lo := RB32(s);
    JoinBE(s.View, t, 4, 4, hi, lo);
    Powers();
    r := hi * TWO_32 + lo;
  }

  // -------------------------------------------------------------------------
  // Variable-length codes and strings.

  /** avio_r8 as byte n of the n' bytes l that a reader at t obtains. */
  method ReadAt(s: IOContext, ghost t: nat, ghost l: seq<byte>, ghost n: nat) returns (c: byte)
    requires s.Inv() && !s.writeFlag && t <= |s.View| && n < |l| && l == Lookahead(s.View, t, |l|)
    requires s.Tell() == Advance(s.View, t, n)
    modifies s`bufPtr, s`bufEnd, s`pos, s`eofReached, s`error, s`srcPos, s`buffer, s`bufferSize, s.buffer
    ensures s.Inv() && (s.buffer == old(s.buffer) || fresh(s.buffer))
    ensures s.error == old(s.error) || s.error == s.srcStatus
    ensures c == l[n] && s.Tell() == Advance(s.View, t, n + 1)
  {
    LookaheadAt(s.View, t, |l|, n);
    c := s.R8();
  }

  /** Everything a reader at t can still obtain, followed by the 0 that avio_r8
      yields at the end. */
  ghost function Rest(v: seq<byte>, t: nat): (r: seq<byte>)
    requires t <= |v|
    ensures |r| == |v| - t + 1 && r[|v| - t] == 0
    ensures forall i :: 0 <= i < |v| - t ==> r[i] == v[t + i]
  {
    Lookahead(v, t, |v| - t + 1)
  }

  /** The code ffio_read_varlen reads from s: its continuation bytes, then the
      first byte with bit 7 clear, which the 0 at the end guarantees. */
  lemma RestCode(v: seq<byte>, t: nat)
    requires t <= |v|
    ensures ContRun(Rest(v, t)) < |Rest(v, t)|
  {
    var l := Rest(v, t);
    assert l[|l| - 1] < 128;
  }

  /** One more byte of a code: the value so far times 128 plus its low 7 bits,
      in 64 bits. */
  lemma VarintValueStep(s: seq<byte>, n: nat)
    requires n < |s|
    ensures VarintValue(s[..n + 1]) == (VarintValue(s[..n]) * 128 + s[n] % 128) % TWO_64
  {
    assert s[..n + 1][..n] == s[..n];
  }

  /** Byte n of s has bit 7 set exactly while n is inside the leading run of continuation bytes. */
  lemma ContRunAt(s: seq<byte>, c: nat, n: nat)
    requires c == ContRun(s) < |s| && n <= c
    ensures s[n] >= 128 <==> n < c
  {
  }

  /** ffio_read_varlen: bytes are read until one has bit 7 clear, and the value
      is built from their low 7 bits, most significant group first, in 64 bits. */
  method ReadVarlen(s: IOContext) returns (val: u64)
    requires s.Inv() && !s.writeFlag
    modifies s`bufPtr, s`bufEnd, s`pos, s`eofReached, s`error, s`srcPos, s`buffer, s`bufferSize, s.buffer
    ensures s.Inv() && (s.buffer == old(s.buffer) || fresh(s.buffer))
    ensures var c := ContRun(Rest(s.View, old(s.Tell())));
      c < |Rest(s.View, old(s.Tell()))| &&
      val == VarintValue(Rest(s.View, old(s.Tell()))[..c + 1]) && s.Tell() == Advance(s.View, old(s.Tell()), c + 1)
    ensures s.error == old(s.error) || s.error == s.srcStatus
  {
    ghost var t := s.Tell();
    ghost var l := Rest(s.View, t);
    ghost var c := ContRun(l);
    RestCode(s.View, t);
    ghost var n := 0;
    val := 0;
    var more := true;
    while more
      invariant s.Inv() && (s.buffer == old(s.buffer) || fresh(s.buffer))
      invariant s.error == old(s.error) || s.error == s.srcStatus
      invariant 0 <= n <= c + 1 && (more <==> n <= c)
      invariant s.Tell() == Advance(s.View, t, n) && val == VarintValue(l[..n])
      decreases c + 1 - n
    {
      var tmp := ReadAt(s, t, l, n);
      VarintValueStep(l, n);
      ContRunAt(l, c, n);
      val := (val * 128 + tmp % 128) % TWO_64;
      more := tmp >= 128;
      n := n + 1;
    }
  }

  /** A code written by ff_put_v is read back by ffio_read_varlen, whatever
      follows it. */
  lemma ReadVarlenOfPutV(v: seq<byte>, t: nat, x: u64)
    requires t + |Varint.Varint(x)| <= |v| && v[t..t + |Varint.Varint(x)|] == Varint.Varint(x)
    ensures var c := ContRun(Rest(v, t));
      c == |Varint.Varint(x)| - 1 && VarintValue(Rest(v, t)[..c + 1]) == x
      && Advance(v, t, c + 1) == t + |Varint.Varint(x)|
  {
    var code := Varint.Varint(x);
    RestStarts(v, t, code);
    var l := Rest(v, t);
    ContRunVarint(x, l[|code|..]);
    assert l[..|code|] == code;
    VarintRoundTrip(x);
  }

  /** What a reader at t can obtain starts with the bytes stored there. */
  lemma RestStarts(v: seq<byte>, t: nat, code: seq<byte>)
    requires t + |code| <= |v| && v[t..t + |code|] == code
    ensures Rest(v, t) == code + Rest(v, t)[|code|..]
  {
    var l := Rest(v, t);
    forall i | 0 <= i < |code| ensures l[i] == code[i] {
      assert v[t..t + |code|][i] == v[t + i];
    }
  }

  /** The length of the C string at the start of s: the index of its first NUL,
      or |s| when it has none. */
  function FirstNul(s: seq<byte>): (r: nat)
    ensures r <= |s|
    ensures forall j :: 0 <= j < r ==> s[j] != 0
    ensures r < |s| ==> s[r] == 0
  {
    if s == [] || s[0] == 0 then 0 else 1 + FirstNul(s[1..])
  }

  /** One round of avio_get_str's first loop: byte n of l is read into buf[n]. */
  method StrNext(s: IOContext, buf: array<byte>, ghost t: nat, ghost l: seq<byte>, n: int) returns (c: byte)
    requires s.Inv() && !s.writeFlag && buf != s.buffer && buf != s.dyn.buffer
    requires t <= |s.View| && 0 <= n < |l| && n < buf.Length && l == Lookahead(s.View, t, |l|)
    requires s.Tell() == Advance(s.View, t, n)
    modifies s`bufPtr, s`bufEnd, s`pos, s`eofReached, s`error, s`srcPos, s`buffer, s`bufferSize, s.buffer, buf
    ensures s.Inv() && (s.buffer == old(s.buffer) || fresh(s.buffer))
    ensures s.error == old(s.error) || s.error == s.srcStatus
    ensures c == l[n] && s.Tell() == Advance(s.View, t, n + 1)
    ensures forall j :: 0 <= j < buf.Length ==> buf[j] == (if j == n then c else old(buf[j]))
  {
    c := ReadAt(s, t, l, n);
    buf[n] := c;
  }

  /** The first loop of avio_get_str: bytes of l are copied into buf until a NUL
      has been copied or room bytes have been. */
  method CopyLoop(s: IOContext, buf: array<byte>, room: int, ghost t: nat, ghost l: seq<byte>)
    returns (i: int, found: bool)
    requires s.Inv() && !s.writeFlag && buf != s.buffer && buf != s.dyn.buffer
    requires t == s.Tell() && l == Lookahead(s.View, t, |l|) && room <= |l| && room < buf.Length
    modifies s`bufPtr, s`bufEnd, s`pos, s`eofReached, s`error, s`srcPos, s`buffer, s`bufferSize, s.buffer, buf
    ensures s.Inv() && (s.buffer == old(s.buffer) || fresh(s.buffer))
    ensures s.error == old(s.error) || s.error == s.srcStatus
    ensures (found <==> FirstNul(l) < room) && i == Min(FirstNul(l), Max(room, 0))
    ensures s.Tell() == Advance(s.View, t, if found then i + 1 else i)
    ensures forall j :: 0 <= j < i ==> buf[j] == l[j]
    ensures found ==> buf[i] == 0
    ensures forall j :: i < j < buf.Length ==> buf[j] == old(buf[j])
  {
    ghost var f := FirstNul(l);
    i, found := 0, false;
    while i < room
      invariant s.Inv() && (s.buffer == old(s.buffer) || fresh(s.buffer))
      invariant s.error == old(s.error) || s.error == s.srcStatus
      invariant 0 <= i <= Max(room, 0) && i <= f && s.Tell() == Advance(s.View, t, i)
      invariant forall j :: 0 <= j < i ==> buf[j] == l[j]
      invariant forall j :: i <= j < buf.Length ==> buf[j] == old(buf[j])
    {
      var c := StrNext(s, buf, t, l, i);
      if c == 0 {
        found := true;
        return;
      }
      i := i + 1;
    }
  }

  /** The second loop of avio_get_str: the rest of the string is read, up to
      maxlen bytes in all, and dropped. */
  method SkipLoop(s: IOContext, from: int, maxlen: int, ghost t: nat, ghost l: seq<byte>) returns (ret: int)
    requires s.Inv() && !s.writeFlag
    requires t <= |s.View| && l == Lookahead(s.View, t, |l|) && |l| == Max(maxlen, 0)
    requires 0 <= from <= FirstNul(l) && from <= |l| && s.Tell() == Advance(s.View, t, from)
    modifies s`bufPtr, s`bufEnd, s`pos, s`eofReached, s`error, s`srcPos, s`buffer, s`bufferSize, s.buffer
    ensures s.Inv() && (s.buffer == old(s.buffer) || fresh(s.buffer))
    ensures s.error == old(s.error) || s.error == s.srcStatus
    ensures ret == (if FirstNul(l) < |l| then FirstNul(l) + 1 else maxlen)
    ensures s.Tell() == Advance(s.View, t, if FirstNul(l) < |l| then FirstNul(l) + 1 else |l|)
  {
    ghost var f := FirstNul(l);
    var i := from;
    while i < maxlen
      invariant s.Inv() && (s.buffer == old(s.buffer) || fresh(s.buffer))
      invariant s.error == old(s.error) || s.error == s.srcStatus
      invariant from <= i <= |l| && i <= f && s.Tell() == Advance(s.View, t, i)
    {
      var c := ReadAt(s, t, l, i);
      if c == 0 {
        return i + 1;
      }
      i := i + 1;
    }
    ret := maxlen;
  }

  /** avio_get_str: reads a NUL-terminated string of at most maxlen bytes and
      stores as much of it as fits in buflen bytes, always NUL-terminated. The
      result is the number of bytes read, the NUL included, or maxlen when no NUL
      came within maxlen bytes; -EINVAL when buf has no room at all. */
  method GetStr(s: IOContext, maxlen: int, buf: array<byte>, buflen: int) returns (ret: int)
    requires s.Inv() && !s.writeFlag && buf != s.buffer && buf != s.dyn.buffer && buflen <= buf.Length
    modifies s`bufPtr, s`bufEnd, s`pos, s`eofReached, s`error, s`srcPos, s`buffer, s`bufferSize, s.buffer, buf
    ensures s.Inv() && (s.buffer == old(s.buffer) || fresh(s.buffer))
    ensures s.error == old(s.error) || s.error == s.srcStatus
    ensures buflen <= 0 ==> ret == -EINVAL && s.Tell() == old(s.Tell()) && buf[..] == old(buf[..])
    ensures buflen > 0 ==>
      var l := Lookahead(s.View, old(s.Tell()), Max(maxlen, 0));
      var f := FirstNul(l);
      var k := Min(f, Max(Min(buflen - 1, maxlen), 0));
      && ret == (if f < |l| then f + 1 else maxlen)
      && s.Tell() == Advance(s.View, old(s.Tell()), if f < |l| then f + 1 else |l|)
      && (forall i :: 0 <= i < k ==> buf[i] == l[i])
      && buf[k] == 0
      && (forall i :: k < i < buf.Length ==> buf[i] == old(buf[i]))
  {
    if buflen <= 0 {
      return -EINVAL;
    }
    ghost var t := s.Tell();
    ghost var l := Lookahead(s.View, t, Max(maxlen, 0));
    var room := Min(buflen - 1, maxlen);
    var i, found := CopyLoop(s, buf, room, t, l);
    if found {
      return i + 1;
    }
    buf[i] := 0;
    ret := SkipLoop(s, i, maxlen, t, l);
  }

  /** The index of the first line feed or NUL in s. */
  function LineEnd(s: seq<byte>): (r: nat)
    ensures r <= |s|
    ensures forall j :: 0 <= j < r ==> s[j] != 10 && s[j] != 0
    ensures r < |s| ==> s[r] == 10 || s[r] == 0
  {
    if s == [] || s[0] == 10 || s[0] == 0 then 0 else 1 + LineEnd(s[1..])
  }

  /** One round of ff_get_line's loop: byte n of l is read and, unless it is a
      NUL or the line has reached maxlen - 1 bytes, stored at buf[i]. */
  method LineNext(s: IOContext, buf: array<byte>, maxlen: int, i: int, ghost t: nat, ghost l: seq<byte>, ghost n: nat)
    returns (c: byte, next: int)
    requires s.Inv() && !s.writeFlag && buf != s.buffer && buf != s.dyn.buffer
    requires t <= |s.View| && n < |l| && l == Lookahead(s.View, t, |l|) && s.Tell() == Advance(s.View, t, n)
    requires 0 <= i < buf.Length
    modifies s`bufPtr, s`bufEnd, s`pos, s`eofReached, s`error, s`srcPos, s`buffer, s`bufferSize, s.buffer, buf
    ensures s.Inv() && (s.buffer == old(s.buffer) || fresh(s.buffer))
    ensures s.error == old(s.error) || s.error == s.srcStatus
    ensures c == l[n] && s.Tell() == Advance(s.View, t, n + 1)
    ensures next == (if c != 0 && i < maxlen - 1 then i + 1 else i)
    ensures forall j :: 0 <= j < buf.Length ==> buf[j] == (if j == i && next > i then c else old(buf[j]))
  {
    c := ReadAt(s, t, l, n);
    next := i;
    if c != 0 && i < maxlen - 1 {
      buf[i] := c;
      next := i + 1;
    }
  }

  /** How many bytes ff_get_line has stored once it has read n bytes of l: all
      of them until the line's end, its line feed included, at most cap. */
  function Stored(l: seq<byte>, n: nat, cap: int): (r: int)
    ensures r <= cap && r <= n && (0 <= cap ==> 0 <= r)
    ensures n <= LineEnd(l) ==> r == Min(n, cap)
    ensures LineEnd(l) < n ==> r <= LineEnd(l) + 1
  {
    var e := LineEnd(l);
    Min(if n <= e then n else if e < |l| && l[e] == 10 then e + 1 else e, cap)
  }

  /** The count after one more byte of a line. */
  lemma LineCount(l: seq<byte>, n: nat, maxlen: int, i: int)
    requires n <= LineEnd(l) < |l| && i == Stored(l, n, Max(maxlen - 1, 0))
    ensures (l[n] == 10 || l[n] == 0) <==> n == LineEnd(l)
    ensures (if l[n] != 0 && i < maxlen - 1 then i + 1 else i) == Stored(l, n + 1, Max(maxlen - 1, 0))
    ensures l[n] != 0 && i < maxlen - 1 ==> i == n
    ensures 0 <= i <= Max(maxlen - 1, 0)
  {
  }

  /** The loop of ff_get_line, over the bytes l that a reader at t obtains. */
  method LineLoop(s: IOContext, buf: array<byte>, maxlen: int, ghost t: nat, ghost l: seq<byte>) returns (i: int)
    requires s.Inv() && !s.writeFlag && buf != s.buffer && buf != s.dyn.buffer && Max(maxlen, 1) <= buf.Length
    requires t == s.Tell() && l == Rest(s.View, t) && LineEnd(l) < |l|
    modifies s`bufPtr, s`bufEnd, s`pos, s`eofReached, s`error, s`srcPos, s`buffer, s`bufferSize, s.buffer, buf
    ensures s.Inv() && (s.buffer == old(s.buffer) || fresh(s.buffer))
    ensures s.error == old(s.error) || s.error == s.srcStatus
    ensures i == Stored(l, LineEnd(l) + 1, Max(maxlen - 1, 0)) && s.Tell() == Advance(s.View, t, LineEnd(l) + 1)
    ensures forall j :: 0 <= j < i ==> buf[j] == l[j]
    ensures forall j :: i <= j < buf.Length ==> buf[j] == old(buf[j])
  {
    ghost var e := LineEnd(l);
    ghost var n := 0;
    i := 0;
    var stop := false;
    while !stop
      invariant s.Inv() && (s.buffer == old(s.buffer) || fresh(s.buffer))
      invariant s.error == old(s.error) || s.error == s.srcStatus
      invariant 0 <= n <= e + 1 && (stop <==> n == e + 1) && s.Tell() == Advance(s.View, t, n)
      invariant i == Stored(l, n, Max(maxlen - 1, 0))
      invariant forall j :: 0 <= j < i ==> buf[j] == l[j]
      invariant forall j :: i <= j < buf.Length ==> buf[j] == old(buf[j])
      decreases e + 1 - n
    {
      LineCount(l, n, maxlen, i);
      var c;
      c, i := LineNext(s, buf, maxlen, i, t, l, n);
      stop := c == 10 || c == 0;
      n := n + 1;
    }
  }

  /** The 0 at the end of the stream ends a line. */
  lemma RestCodeLine(v: seq<byte>, t: nat)
    requires t <= |v|
    ensures LineEnd(Rest(v, t)) < |Rest(v, t)|
  {
    var l := Rest(v, t);
    assert l[|l| - 1] == 0;
  }

  /** ff_get_line: reads up to and including the next line feed or NUL (the 0 at
      the end of the stream ends a line too) and stores the line, its line feed
      but not a NUL included, truncated to maxlen - 1 bytes, then a NUL. The
      result is the number of bytes stored before that NUL. */
  method GetLine(s: IOContext, buf: array<byte>, maxlen: int) returns (ret: int)
    requires s.Inv() && !s.writeFlag && buf != s.buffer && buf != s.dyn.buffer && Max(maxlen, 1) <= buf.Length
    modifies s`bufPtr, s`bufEnd, s`pos, s`eofReached, s`error, s`srcPos, s`buffer, s`bufferSize, s.buffer, buf
    ensures s.Inv() && (s.buffer == old(s.buffer) || fresh(s.buffer))
    ensures s.error == old(s.error) || s.error == s.srcStatus
    ensures var l := Rest(s.View, old(s.Tell()));
      var e := LineEnd(l);
      && e < |l|
      && ret == Min(if l[e] == 10 then e + 1 else e, Max(maxlen - 1, 0))
      && s.Tell() == Advance(s.View, old(s.Tell()), e + 1)
      && (forall i :: 0 <= i < ret ==> buf[i] == l[i])
      && buf[ret] == 0
      && (forall i :: ret < i < buf.Length ==> buf[i] == old(buf[i]))
  {
    ghost var l := Rest(s.View, s.Tell());
    RestCodeLine(s.View, s.Tell());
    ret := LineLoop(s, buf, maxlen, s.Tell(), l);
    buf[ret] := 0;
  }
}
