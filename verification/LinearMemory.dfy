/** Reading and writing little-endian words in a snapshot of WebAssembly linear memory. */
module LinearMemory {
  import opened LittleEndian

  const PAGE_SIZE := 65536
  /** The most a 32-bit memory can have. */
  const MAX_PAGES := 65536

  function Load(m: seq<byte>, a: nat, k: nat): nat
    requires a + k <= |m|
  {
    Decode(m[a..a + k])
  }

  function Store(m: seq<byte>, a: nat, k: nat, x: nat): (m': seq<byte>)
    requires a + k <= |m|
    ensures |m'| == |m|
    ensures SameOutside(m, m', a, a + k)
  {
    m[..a] + Encode(x, k) + m[a + k..]
  }

  /** The two snapshots agree at every address outside `[lo, hi)`. */
  ghost predicate SameOutside(m: seq<byte>, m': seq<byte>, lo: nat, hi: nat)
  {
    && |m| == |m'|
    && forall a :: 0 <= a < |m| && !(lo <= a < hi) ==> m[a] == m'[a]
  }

  lemma LoadStored(m: seq<byte>, a: nat, k: nat, x: nat)
    requires a + k <= |m| && x < Pow256(k)
    ensures Load(Store(m, a, k, x), a, k) == x
  {
    assert Store(m, a, k, x)[a..a + k] == Encode(x, k);
    DecodeEncode(x, k);
  }

  /** A write elsewhere does not change a word. */
  lemma LoadFrame(m: seq<byte>, m': seq<byte>, lo: nat, hi: nat, a: nat, k: nat)
    requires SameOutside(m, m', lo, hi)
    requires a + k <= |m|
    requires a + k <= lo || hi <= a
    ensures Load(m', a, k) == Load(m, a, k)
  {
    assert m'[a..a + k] == m[a..a + k];
  }

  /** A u64 is its low and its high half. */
  lemma LoadHalves(m: seq<byte>, a: nat)
    requires a + 8 <= |m|
    ensures Load(m, a, 8) == Load(m, a, 4) + U32_LIMIT * Load(m, a + 4, 4)
  {
    WordSizes();
    DecodeConcat(m[a..a + 4], m[a + 4..a + 8]);
    assert m[a..a + 8] == m[a..a + 4] + m[a + 4..a + 8];
  }

  lemma LoadZero(m: seq<byte>, a: nat, k: nat)
    requires a + k <= |m|
    requires forall i :: a <= i < a + k ==> m[i] == 0
    ensures Load(m, a, k) == 0
  {
    var s := m[a..a + k];
    DecodeZeros(s);
  }

  lemma {:induction false} DecodeZeros(s: seq<byte>)
    requires forall i :: 0 <= i < |s| ==> s[i] == 0
    ensures Decode(s) == 0
  {
    if s != [] {
      DecodeZeros(s[1..]);
    }
  }

  /** `m'` is `m` with the word `x` of `k` bytes written at `a`. */
  ghost predicate Wrote(m: seq<byte>, m': seq<byte>, a: nat, k: nat, x: nat)
  {
    a + k <= |m| && SameOutside(m, m', a, a + k) && Load(m', a, k) == x
  }

  ghost predicate WroteByte(m: seq<byte>, m': seq<byte>, a: nat, v: byte)
  {
    a < |m| && SameOutside(m, m', a, a + 1) && m'[a] == v
  }

  lemma StoreWrote(m: seq<byte>, a: nat, k: nat, x: nat)
    requires a + k <= |m| && x < Pow256(k)
    ensures Wrote(m, Store(m, a, k, x), a, k, x)
  {
    LoadStored(m, a, k, x);
  }

  /** The bytes after a write are determined: they are those of `Store`. */
  lemma WroteIsStore(m: seq<byte>, m': seq<byte>, a: nat, k: nat, x: nat)
    requires Wrote(m, m', a, k, x)
    ensures m' == Store(m, a, k, x)
  {
    var s := m'[a..a + k];
    EncodeDecode(s);
    assert Store(m, a, k, x)[a..a + k] == s;
    forall i | 0 <= i < |m| ensures m'[i] == Store(m, a, k, x)[i] {
      if a <= i < a + k {
        assert m'[i] == s[i - a];
      }
    }
  }
}
