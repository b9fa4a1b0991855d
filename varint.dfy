/** The base-128 variable-length integer code of ff_put_v / ffio_read_varlen:
    7-bit groups, most significant group first, every byte but the last with
    bit 7 set. */
module Varint {
  import opened Bytes

  function Pow128(n: nat): (r: nat)
    ensures r > 0
  {
    if n == 0 then 1 else 128 * Pow128(n - 1)
  }

  /** The number of 7-bit groups needed for v (at least one, even for 0). */
  function VarintLength(v: nat): (r: nat)
    ensures r >= 1
    ensures r == 1 <==> v < 128
  {
    if v < 128 then 1 else 1 + VarintLength(v / 128)
  }

  /** The bytes ff_put_v emits for v. */
  function Varint(v: nat): (r: seq<byte>)
  {
    var n := VarintLength(v);
    seq(n, j requires 0 <= j < n =>
      if j < n - 1 then 128 + (v / Pow128(n - 1 - j)) % 128 else v % 128)
  }

  /** The value ffio_read_varlen accumulates from the bytes s, in 64-bit unsigned arithmetic. */
  function VarintValue(s: seq<byte>): u64
  {
    if s == [] then 0 else (VarintValue(s[..|s| - 1]) * 128 + s[|s| - 1] % 128) % TWO_64
  }

  /** The number of leading bytes of s that have bit 7 set (continuation bytes). */
  function ContRun(s: seq<byte>): (r: nat)
    ensures r <= |s|
    ensures forall j :: 0 <= j < r ==> s[j] >= 128
    ensures r < |s| ==> s[r] < 128
  {
    if s == [] || s[0] < 128 then 0 else 1 + ContRun(s[1..])
  }

  // ---------------------------------------------------------------------

  /** VarintLength(v) is the least n with v < 128^n. */
  lemma {:induction false} VarintLengthBounds(v: nat)
    ensures v < Pow128(VarintLength(v))
    ensures VarintLength(v) > 1 ==> v >= Pow128(VarintLength(v) - 1)
  {
    if v >= 128 {
      var n := VarintLength(v / 128);
      VarintLengthBounds(v / 128);
      assert v / 128 < Pow128(n);
      assert v < 128 * Pow128(n) by {
        assert v == 128 * (v / 128) + v % 128;
        assert v / 128 <= Pow128(n) - 1;
        assert 128 * (v / 128) <= 128 * (Pow128(n) - 1);
      }
      if n > 1 {
        assert v / 128 >= Pow128(n - 1);
        assert 128 * (v / 128) >= 128 * Pow128(n - 1);
      }
    }
  }

  /** A 64-bit value needs at most ten groups. */
  lemma VarintLengthU64(v: u64)
    ensures 1 <= VarintLength(v) <= 10
  {
    VarintLengthBounds(v);
    var n := VarintLength(v);
    assert Pow128(10) == 0x40_0000_0000_0000_0000;
    if n > 10 {
      PowMono(10, n - 1);
    }
  }

  lemma {:induction false} PowMono(m: nat, n: nat)
    requires m <= n
    ensures Pow128(m) <= Pow128(n)
  {
    if m < n {
      PowMono(m, n - 1);
    }
  }

  /** ff_put_v emits VarintLength(v) bytes; all but the last have bit 7 set and the last has it clear. */
  lemma VarintShape(v: nat)
    ensures |Varint(v)| == VarintLength(v) >= 1
    ensures forall j :: 0 <= j < |Varint(v)| - 1 ==> Varint(v)[j] >= 128
    ensures Varint(v)[|Varint(v)| - 1] < 128
  {
  }

  /** Byte j of the code: group VarintLength(v) - 1 - j of v, bit 7 set on all but the last. */
  lemma VarintAt(v: nat, j: nat)
    requires j < VarintLength(v)
    ensures j < VarintLength(v) - 1 ==> Varint(v)[j] == 128 + (v / Pow128(VarintLength(v) - 1 - j)) % 128
    ensures j == VarintLength(v) - 1 ==> Varint(v)[j] == v % 128
  {
  }

  /** The first j bytes of the code decode to v without its last VarintLength(v) - j groups. */
  lemma {:induction false} VarintPrefixValue(v: nat, j: nat)
    requires j <= VarintLength(v)
    ensures VarintValue(Varint(v)[..j]) == (v / Pow128(VarintLength(v) - j)) % TWO_64
  {
    var n := VarintLength(v);
    var s := Varint(v);
    if j == 0 {
      VarintPrefixEmpty(v);
    } else {
      VarintPrefixValue(v, j - 1);
      VarintPrefixStep(v, j - 1);
    }
  }

  lemma VarintPrefixStep(v: nat, k: nat)
    requires k < VarintLength(v)
    requires VarintValue(Varint(v)[..k]) == (v / Pow128(VarintLength(v) - k)) % TWO_64
    ensures VarintValue(Varint(v)[..k + 1]) == (v / Pow128(VarintLength(v) - (k + 1))) % TWO_64
  {
    var n := VarintLength(v);
    var s := Varint(v);
    var p := Pow128(n - (k + 1));
    var prev := VarintValue(s[..k]);
    var b := s[k];
    assert s[..k + 1][..k] == s[..k];
    assert VarintValue(s[..k + 1]) == (prev * 128 + b % 128) % TWO_64;
    VarintByte(v, k);
    assert Pow128(n - k) == p * 128;
    StepArith(v, p, prev, b % 128);
  }

  lemma StepArith(v: nat, p: nat, hi: int, lo: int)
    requires p > 0
    requires hi == (v / (p * 128)) % TWO_64 && lo == (v / p) % 128
    ensures (hi * 128 + lo) % TWO_64 == (v / p) % TWO_64
  {
    DivDiv(v, p, 128);
    ShiftInGroup(v / p, hi, lo);
  }

  lemma VarintPrefixEmpty(v: nat)
    ensures VarintValue(Varint(v)[..0]) == (v / Pow128(VarintLength(v))) % TWO_64
  {
    VarintLengthBounds(v);
    DivModUnique(v, Pow128(VarintLength(v)), 0, v);
    assert Varint(v)[..0] == [];
  }

  /** Byte k of the code carries group k, counted from the most significant. */
  lemma VarintByte(v: nat, k: nat)
    requires k < VarintLength(v)
    ensures Varint(v)[k] % 128 == (v / Pow128(VarintLength(v) - 1 - k)) % 128
  {
    var n := VarintLength(v);
    if k == n - 1 {
      assert Pow128(0) == 1;
    }
  }

  /** Appending x's low 7 bits to x / 128, modulo 2^64. */
  lemma ShiftInGroup(x: nat, hi: int, lo: int)
    requires hi == (x / 128) % TWO_64 && lo == x % 128
    ensures (hi * 128 + lo) % TWO_64 == x % TWO_64
  {
    var a := x / 128;
    var k := -(a / TWO_64) * 128;
    assert hi == a - TWO_64 * (a / TWO_64);
    assert hi * 128 + lo == (a * 128 + lo) + TWO_64 * k;
    ModAddMultiple(a * 128 + lo, k, TWO_64);
    assert a * 128 + lo == x;
  }

  /** ffio_read_varlen over the bytes of ff_put_v(v) returns v. */
  lemma VarintRoundTrip(v: u64)
    ensures VarintValue(Varint(v)) == v
  {
    var s := Varint(v);
    VarintPrefixValue(v, |s|);
    assert s[..|s|] == s;
    assert Pow128(VarintLength(v) - |s|) == 1;
    assert v / 1 % TWO_64 == v;
  }

  /** Reading a code followed by anything stops exactly at the code's last byte. */
  lemma ContRunVarint(v: nat, rest: seq<byte>)
    ensures ContRun(Varint(v) + rest) == |Varint(v)| - 1
  {
    ContRunPrefix(Varint(v) + rest, |Varint(v)| - 1);
  }

  /** A run of k continuation bytes followed by a final byte has ContRun k. */
  lemma {:induction false} ContRunPrefix(s: seq<byte>, k: nat)
    requires k < |s| && s[k] < 128
    requires forall j :: 0 <= j < k ==> s[j] >= 128
    ensures ContRun(s) == k
  {
    if k > 0 {
      ContRunPrefix(s[1..], k - 1);
    }
  }

  // ---------------------------------------------------------------------

  /** ff_get_v_length: counts how many times v can be shifted right by 7 before it becomes 0. */
  method GetVLength(val: u64) returns (i: int)
    ensures i == VarintLength(val) && 1 <= i <= 10
  {
    var v: nat := val;
    i := 1;
    v := v / 128;
    while v != 0
      invariant 1 <= i
      invariant v != 0 ==> i + VarintLength(v) == VarintLength(val)
      invariant v == 0 ==> i == VarintLength(val)
      decreases v
    {
      i := i + 1;
      v := v / 128;
    }
    VarintLengthU64(val);
  }
}
