/** Byte-level integer codecs used by the buffered I/O layer: the little- and
    big-endian byte orders of the avio_wl* / avio_wb* writers and the
    avio_rl* / avio_rb* readers. */
module Bytes {

  /** An unsigned char. */
  type byte = b: int | 0 <= b < 256

  /** C's 32- and 64-bit unsigned integers. */
  type u32 = x: int | 0 <= x < 0x1_0000_0000
  type u64 = x: int | 0 <= x < 0x1_0000_0000_0000_0000

  const TWO_32: nat := 0x1_0000_0000
  const TWO_64: nat := 0x1_0000_0000_0000_0000

  function Pow256(n: nat): (r: nat)
    ensures r > 0
  {
    if n == 0 then 1 else 256 * Pow256(n - 1)
  }

  /** The n low-order bytes of v, least significant first. */
  function LE(v: nat, n: nat): (r: seq<byte>)
    ensures |r| == n
  {
    if n == 0 then [] else [v % 256] + LE(v / 256, n - 1)
  }

  /** The n low-order bytes of v, most significant first. */
  function BE(v: nat, n: nat): (r: seq<byte>)
    ensures |r| == n
  {
    if n == 0 then [] else BE(v / 256, n - 1) + [v % 256]
  }

  /** The value of a little-endian byte string. */
  function FromLE(s: seq<byte>): nat
  {
    if s == [] then 0 else s[0] + 256 * FromLE(s[1..])
  }

  /** The value of a big-endian byte string. */
  function FromBE(s: seq<byte>): nat
  {
    if s == [] then 0 else FromBE(s[..|s| - 1]) * 256 + s[|s| - 1]
  }

  /** v shifted right by n bytes. */
  function Above(v: nat, n: nat): nat
  {
    DivNonNeg(v, Pow256(n));
    v / Pow256(n)
  }

  // ---------------------------------------------------------------------
  // Arithmetic helpers

  lemma DivNonNeg(v: nat, d: int)
    requires d > 0
    ensures v / d >= 0
  {
  }

  lemma MulAtLeast(d: nat, k: int)
    requires k >= 1
    ensures d * k >= d
  {
    assert d * k == d * (k - 1) + d;
  }

  /** Adding a multiple of m does not change a remainder modulo m. */
  lemma ModAddMultiple(a: int, k: int, m: int)
    requires m > 0
    ensures (a + m * k) % m == a % m
  {
    DivModUnique(a + m * k, m, a / m + k, a % m);
  }

  lemma DivModUnique(v: int, d: int, q: int, r: int)
    requires d > 0 && 0 <= r < d && v == d * q + r
    ensures v / d == q && v % d == r
  {
    var q', r' := v / d, v % d;
    assert d * q' + r' == d * q + r;
    if q' < q {
      assert d * (q - q') == r' - r;
      MulAtLeast(d, q - q');
    } else if q' > q {
      assert d * (q' - q) == r - r';
      MulAtLeast(d, q' - q);
    }
  }

  lemma DivDiv(v: nat, a: nat, b: nat)
    requires a > 0 && b > 0
    ensures v / a / b == v / (a * b)
  {
    var q, r := v / a, v % a;
    var q2, r2 := q / b, q % b;
    Regroup(a, b, q2, r2, r);
    MulBound(a, r2, b);
    DivModUnique(v, a * b, q2, a * r2 + r);
  }

  lemma Regroup(a: int, b: int, q: int, r2: int, r: int)
    ensures a * (b * q + r2) + r == (a * b) * q + (a * r2 + r)
  {
  }

  lemma MulBound(a: nat, r: nat, b: nat)
    requires r < b
    ensures a * r + a <= a * b
  {
    assert a * b - a * r == a * (b - r);
    if a > 0 {
      MulAtLeast(a, b - r);
    }
  }

  /** Splitting off the low byte: v mod 256^(n+1) is its low byte plus 256 times the rest. */
  lemma ModPowStep(v: nat, n: nat)
    ensures v % Pow256(n + 1) == v % 256 + 256 * ((v / 256) % Pow256(n))
  {
    var p := Pow256(n);
    var q := (v / 256) / p;
    var r := v % 256 + 256 * ((v / 256) % p);
    assert v / 256 == p * q + (v / 256) % p;
    assert v == 256 * (v / 256) + v % 256;
    assert v == (256 * p) * q + r by {
      calc {
        v;
        256 * (v / 256) + v % 256;
        256 * (p * q + (v / 256) % p) + v % 256;
        (256 * p) * q + r;
      }
    }
    assert r < 256 * p by {
      assert (v / 256) % p <= p - 1;
      assert 256 * ((v / 256) % p) <= 256 * (p - 1);
    }
    DivModUnique(v, 256 * p, q, r);
  }

  lemma PowAdd(m: nat, n: nat)
    ensures Pow256(m + n) == Pow256(m) * Pow256(n)
  {
    if m > 0 {
      PowAdd(m - 1, n);
    }
  }

  // ---------------------------------------------------------------------
  // Properties of the codecs

  /** Byte i of the little-endian encoding is bits 8i..8i+7 of v. */
  lemma {:induction false} LEAt(v: nat, n: nat, i: nat)
    requires i < n
    ensures LE(v, n)[i] == (v / Pow256(i)) % 256
  {
    if i > 0 {
      LEAt(v / 256, n - 1, i - 1);
      DivDiv(v, 256, Pow256(i - 1));
    }
  }

  /** Byte i of the big-endian encoding is bits 8(n-1-i)..8(n-1-i)+7 of v. */
  lemma {:induction false} BEAt(v: nat, n: nat, i: nat)
    requires i < n
    ensures BE(v, n)[i] == (v / Pow256(n - 1 - i)) % 256
  {
    if i < n - 1 {
      BEAt(v / 256, n - 1, i);
      DivDiv(v, 256, Pow256(n - 2 - i));
    }
  }

  /** Decoding a little-endian encoding gives back the encoded value, reduced to n bytes. */
  lemma {:induction false} LERoundTrip(v: nat, n: nat)
    ensures FromLE(LE(v, n)) == v % Pow256(n)
  {
    if n > 0 {
      var s := LE(v, n);
      assert s[1..] == LE(v / 256, n - 1);
      LERoundTrip(v / 256, n - 1);
      ModPowStep(v, n - 1);
    }
  }

  /** Decoding a big-endian encoding gives back the encoded value, reduced to n bytes. */
  lemma {:induction false} BERoundTrip(v: nat, n: nat)
    ensures FromBE(BE(v, n)) == v % Pow256(n)
  {
    if n > 0 {
      var s := BE(v, n);
      assert s[..n - 1] == BE(v / 256, n - 1);
      BERoundTrip(v / 256, n - 1);
      ModPowStep(v, n - 1);
    }
  }

  /** A value that fits in n bytes is recovered exactly. */
  lemma LERoundTripExact(v: nat, n: nat)
    requires v < Pow256(n)
    ensures FromLE(LE(v, n)) == v
  {
    LERoundTrip(v, n);
  }

  lemma BERoundTripExact(v: nat, n: nat)
    requires v < Pow256(n)
    ensures FromBE(BE(v, n)) == v
  {
    BERoundTrip(v, n);
  }

  /** An n-byte string decodes to a value below 256^n. */
  lemma {:induction false} FromLEBound(s: seq<byte>)
    ensures FromLE(s) < Pow256(|s|)
  {
    if s != [] {
      FromLEBound(s[1..]);
    }
  }

  lemma {:induction false} FromBEBound(s: seq<byte>)
    ensures FromBE(s) < Pow256(|s|)
  {
    if s != [] {
      FromBEBound(s[..|s| - 1]);
    }
  }

  /** Decoding the encoding of a decoded string gives the string back. */
  lemma {:induction false} LEOfFromLE(s: seq<byte>)
    ensures LE(FromLE(s), |s|) == s
  {
    if s != [] {
      LEOfFromLE(s[1..]);
      var v := FromLE(s);
      assert v % 256 == s[0] && v / 256 == FromLE(s[1..]) by {
        DivModUnique(v, 256, FromLE(s[1..]), s[0]);
      }
    }
  }

  lemma {:induction false} BEOfFromBE(s: seq<byte>)
    ensures BE(FromBE(s), |s|) == s
  {
    if s != [] {
      var init := s[..|s| - 1];
      BEOfFromBE(init);
      var v := FromBE(s);
      assert v % 256 == s[|s| - 1] && v / 256 == FromBE(init) by {
        DivModUnique(v, 256, FromBE(init), s[|s| - 1]);
      }
      assert s == init + [s[|s| - 1]];
    }
  }

  /** A little-endian string split in two: the high part is shifted by the low part's width. */
  lemma {:induction false} FromLEAppend(a: seq<byte>, b: seq<byte>)
    ensures FromLE(a + b) == FromLE(a) + Pow256(|a|) * FromLE(b)
  {
    if a == [] {
      assert a + b == b;
    } else {
      assert (a + b)[1..] == a[1..] + b;
      FromLEAppend(a[1..], b);
      calc {
        FromLE(a + b);
        a[0] + 256 * FromLE(a[1..] + b);
        a[0] + 256 * (FromLE(a[1..]) + Pow256(|a| - 1) * FromLE(b));
        a[0] + 256 * FromLE(a[1..]) + (256 * Pow256(|a| - 1)) * FromLE(b);
      }
    }
  }

  /** A big-endian string split in two: the first part is shifted by the second part's width. */
  lemma {:induction false} FromBEAppend(a: seq<byte>, b: seq<byte>)
    ensures FromBE(a + b) == FromBE(a) * Pow256(|b|) + FromBE(b)
  {
    if b == [] {
      assert a + b == a;
    } else {
      var b' := b[..|b| - 1];
      assert (a + b)[..|a + b| - 1] == a + b';
      FromBEAppend(a, b');
    }
  }

  /** The first m + n little-endian bytes are the first m, then the n bytes of
      what is left above them. */
  lemma {:induction false} LEConcat(v: nat, m: nat, n: nat)
    ensures LE(v, m + n) == LE(v, m) + LE(Above(v, m), n)
  {
    if m > 0 {
      var q := v / 256;
      LEConcat(q, m - 1, n);
      DivDiv(v, 256, Pow256(m - 1));
      var hi := Above(q, m - 1);
      assert hi == Above(v, m);
      calc {
        LE(v, m + n);
        [v % 256] + LE(q, (m - 1) + n);
        [v % 256] + (LE(q, m - 1) + LE(hi, n));
        ([v % 256] + LE(q, m - 1)) + LE(hi, n);
      }
    }
  }

  /** The n low-order bytes depend only on v modulo 256^n (a C cast to a narrower type). */
  lemma {:induction false} LEMod(v: nat, n: nat)
    ensures LE(v % Pow256(n), n) == LE(v, n)
  {
    if n > 0 {
      var w := v % Pow256(n);
      ModPowStep(v, n - 1);
      LowHigh(w, v % 256, (v / 256) % Pow256(n - 1));
      LEMod(v / 256, n - 1);
    }
  }

  /** For w == lo + 256 * hi with lo a byte: w's low byte is lo and the rest is hi. */
  lemma LowHigh(w: nat, lo: nat, hi: nat)
    requires lo < 256 && w == lo + 256 * hi
    ensures w % 256 == lo && w / 256 == hi
  {
    DivModUnique(w, 256, hi, lo);
  }

  /** The last n of m + n big-endian bytes are v's n low-order bytes, and the
      first m encode what is above them. */
  lemma {:induction false} BEConcat(v: nat, m: nat, n: nat)
    ensures BE(v, m + n) == BE(Above(v, n), m) + BE(v, n)
  {
    if n > 0 {
      var q := v / 256;
      BEConcat(q, m, n - 1);
      DivDiv(v, 256, Pow256(n - 1));
      var hi := Above(q, n - 1);
      assert hi == Above(v, n);
      calc {
        BE(v, m + n);
        BE(q, m + (n - 1)) + [v % 256];
        (BE(hi, m) + BE(q, n - 1)) + [v % 256];
        BE(hi, m) + (BE(q, n - 1) + [v % 256]);
      }
    }
  }

  lemma {:induction false} BEMod(v: nat, n: nat)
    ensures BE(v % Pow256(n), n) == BE(v, n)
  {
    if n > 0 {
      var w := v % Pow256(n);
      ModPowStep(v, n - 1);
      LowHigh(w, v % 256, (v / 256) % Pow256(n - 1));
      BEMod(v / 256, n - 1);
    }
  }
}
