/** Bytes, and the little-endian encoding WebAssembly uses for integers in linear memory. */
module LittleEndian {

  type byte = x: int | 0 <= x < 256

  const U32_LIMIT := 0x1_0000_0000
  const U64_LIMIT := 0x1_0000_0000_0000_0000

  function Pow256(k: nat): (r: nat)
    ensures 1 <= r
  {
    if k == 0 then 1 else 256 * Pow256(k - 1)
  }

  /** The `k` low-order bytes of `x`, least significant first. */
  function Encode(x: nat, k: nat): (s: seq<byte>)
    ensures |s| == k
  {
    if k == 0 then [] else [x % 256] + Encode(x / 256, k - 1)
  }

  function Decode(s: seq<byte>): nat
  {
    if s == [] then 0 else s[0] + 256 * Decode(s[1..])
  }

  lemma WordSizes()
    ensures Pow256(4) == U32_LIMIT
    ensures Pow256(8) == U64_LIMIT
  {
  }

  lemma {:induction false} DecodeEncode(x: nat, k: nat)
    requires x < Pow256(k)
    ensures Decode(Encode(x, k)) == x
  {
    if k > 0 {
      DecodeEncode(x / 256, k - 1);
      assert Encode(x, k)[1..] == Encode(x / 256, k - 1);
    }
  }

  lemma {:induction false} EncodeDecode(s: seq<byte>)
    ensures Decode(s) < Pow256(|s|)
    ensures Encode(Decode(s), |s|) == s
  {
    if s != [] {
      EncodeDecode(s[1..]);
      assert Decode(s) / 256 == Decode(s[1..]);
      assert s == [s[0]] + s[1..];
    }
  }

  lemma {:induction false} DecodeConcat(s: seq<byte>, t: seq<byte>)
    ensures Decode(s + t) == Decode(s) + Pow256(|s|) * Decode(t)
  {
    if s == [] {
      assert s + t == t;
    } else {
      DecodeConcat(s[1..], t);
      assert (s + t)[1..] == s[1..] + t;
      Distribute(s[0], Decode(s[1..]), Pow256(|s| - 1), Decode(t));
    }
  }

  lemma Distribute(a: nat, b: nat, p: nat, d: nat)
    ensures a + 256 * (b + p * d) == (a + 256 * b) + (256 * p) * d
  {
  }

  /** Byte `i` of an encoding is the digit of weight 256^i. */
  lemma {:induction false} EncodedByte(x: nat, k: nat, i: nat)
    requires i < k
    ensures Encode(x, k)[i] == x / Pow256(i) % 256
  {
    if i > 0 {
      EncodedByte(x / 256, k - 1, i - 1);
      DivideTwice(x, Pow256(i - 1));
    }
  }

  lemma DivideTwice(x: nat, d: nat)
    requires 1 <= d
    ensures x / 256 / d == x / (256 * d)
  {
    var q, r := x / 256 / d, 256 * (x / 256 % d) + x % 256;
    assert x == (256 * d) * q + r by {
      assert x / 256 == d * q + x / 256 % d;
      assert 256 * (d * q) == (256 * d) * q;
    }
    QuotientUnique(x, 256 * d, q, r);
  }

  lemma QuotientUnique(x: int, d: int, q: int, r: int)
    requires 0 <= r < d && x == d * q + r
    ensures x / d == q
  {
    var q' := x / d;
    assert x == d * q' + x % d;
    if q > q' {
      MultipleAtLeast(d, q, q');
    } else if q < q' {
      MultipleAtLeast(d, q', q);
    }
  }

  lemma MultipleAtLeast(d: int, q: int, p: int)
    requires 0 < d && p < q
    ensures d * q >= d * p + d
  {
    assert d * (q - p - 1) >= 0;
    assert d * (q - p - 1) == d * q - d * p - d;
  }
}
