/** Machine words as the store lays them out: bytes, 64-bit unsigned words
    (`size_t` on the 64-bit little-endian platform the store targets), and the
    little-endian codec used for every word of a header or an element tag. */
module Words {

  type u8 = x: int | 0 <= x < 0x100
  type u64 = x: int | 0 <= x < 0x1_0000_0000_0000_0000

  const WordBytes: nat := 8
  const WordLimit: nat := 0x1_0000_0000_0000_0000

  /** 256 to the power k: the number of values k bytes can hold. */
  function Pow256(k: nat): (r: nat)
    ensures r > 0
  {
    if k == 0 then 1 else 256 * Pow256(k - 1)
  }

  lemma {:induction false} WordLimitIsPow256()
    ensures Pow256(WordBytes) == WordLimit
  {
    assert Pow256(4) == 0x1_0000_0000;
  }

  /** The k low-order bytes of n, least significant first. */
  function EncodeLE(n: nat, k: nat): (r: seq<u8>)
    ensures |r| == k
  {
    if k == 0 then [] else [n % 256] + EncodeLE(n / 256, k - 1)
  }

  /** The number whose little-endian bytes are s. */
  function DecodeLE(s: seq<u8>): (n: nat)
    ensures n < Pow256(|s|)
  {
    if s == [] then 0 else s[0] + 256 * DecodeLE(s[1..])
  }

  lemma {:induction false} DecodeEncodeLE(n: nat, k: nat)
    requires n < Pow256(k)
    ensures DecodeLE(EncodeLE(n, k)) == n
  {
    if k > 0 {
      var e := EncodeLE(n, k);
      assert e[1..] == EncodeLE(n / 256, k - 1);
      DecodeEncodeLE(n / 256, k - 1);
    }
  }

  lemma {:induction false} EncodeDecodeLE(s: seq<u8>)
    ensures EncodeLE(DecodeLE(s), |s|) == s
  {
    if s != [] {
      var n := DecodeLE(s);
      assert n % 256 == s[0] && n / 256 == DecodeLE(s[1..]);
      EncodeDecodeLE(s[1..]);
    }
  }

  /** A size_t as it sits in memory. */
  function EncodeWord(n: u64): (r: seq<u8>)
    ensures |r| == WordBytes
  {
    EncodeLE(n, WordBytes)
  }

  /** The size_t read from eight bytes of memory. */
  function DecodeWord(s: seq<u8>): (n: u64)
    requires |s| == WordBytes
  {
    WordLimitIsPow256();
    DecodeLE(s)
  }

  /** Writing a word and reading it back gives the word. */
  lemma {:induction false} WordRoundTrip(n: u64)
    ensures DecodeWord(EncodeWord(n)) == n
  {
    WordLimitIsPow256();
    DecodeEncodeLE(n, WordBytes);
  }

  /** Reading a word and writing it back gives the same eight bytes. */
  lemma {:induction false} WordBytesRoundTrip(s: seq<u8>)
    requires |s| == WordBytes
    ensures EncodeWord(DecodeWord(s)) == s
  {
    EncodeDecodeLE(s);
  }

  /** The bytes of s from p up to q, read in place as a little-endian number. */
  function LEAt(s: seq<u8>, p: nat, q: nat): (n: nat)
    requires p <= q <= |s|
    ensures n < Pow256(q - p)
    decreases |s| - p
  {
    if p == q then 0 else s[p] + 256 * LEAt(s, p + 1, q)
  }

  lemma {:induction false} LEAtSlice(s: seq<u8>, p: nat, q: nat)
    requires p <= q <= |s|
    ensures LEAt(s, p, q) == DecodeLE(s[p..q])
    decreases |s| - p
  {
    if p < q {
      var t := s[p..q];
      assert t[0] == s[p] && t[1..] == s[p + 1..q];
      LEAtSlice(s, p + 1, q);
    }
  }

  /** `*reinterpret_cast<size_t*>(s + p)`: the word stored at p. */
  function WordAt(s: seq<u8>, p: nat): u64
    requires p + WordBytes <= |s|
  {
    WordLimitIsPow256();
    LEAt(s, p, p + WordBytes)
  }

  /** The word at p is the decoding of the eight bytes there. */
  lemma {:induction false} WordAtSlice(s: seq<u8>, p: nat)
    requires p + WordBytes <= |s|
    ensures WordAt(s, p) == DecodeWord(s[p..p + WordBytes])
  {
    LEAtSlice(s, p, p + WordBytes);
  }

  /** `memcpy(s + p, v, |v|)`: the bytes of v replace those at p, nothing else changes. */
  function Overwrite(s: seq<u8>, p: nat, v: seq<u8>): (r: seq<u8>)
    requires p + |v| <= |s|
    ensures |r| == |s|
    ensures r[p..p + |v|] == v
    ensures forall i :: 0 <= i < |s| && !(p <= i < p + |v|) ==> r[i] == s[i]
  {
    s[..p] + v + s[p + |v|..]
  }

  /** `n` zero bytes: the all-zero object a value-initialised scalar `T{}` occupies. */
  function Zeros(n: nat): (r: seq<u8>)
    ensures |r| == n
    ensures forall i :: 0 <= i < n ==> r[i] == 0
  {
    seq(n, _ => 0)
  }

  // ---------------------------------------------------------------- Slices

  /** The three parts of a concatenation, taken back out by offset. */
  lemma {:induction false} Slice3<T>(a: seq<T>, b: seq<T>, c: seq<T>)
    ensures (a + b + c)[..|a|] == a
    ensures (a + b + c)[|a|..|a| + |b|] == b
    ensures (a + b + c)[|a| + |b|..] == c
  {
  }

  /** Writing over the middle part of a concatenation with bytes of the same length. */
  lemma {:induction false} OverwriteMiddle(a: seq<u8>, b: seq<u8>, c: seq<u8>, v: seq<u8>)
    requires |v| == |b|
    ensures Overwrite(a + b + c, |a|, v) == a + v + c
  {
    Slice3(a, b, c);
  }

  /** Closing the gap the middle part leaves. */
  lemma {:induction false} SpliceOut<T>(a: seq<T>, b: seq<T>, c: seq<T>)
    ensures (a + b + c)[..|a|] + (a + b + c)[|a| + |b|..] == a + c
  {
    Slice3(a, b, c);
  }

  /** Concatenation regroups freely. */
  /** PartsAt with the part boundaries given as offsets i and j from p. */
  lemma {:induction false} SplitParts<T>(s: seq<T>, p: nat, i: nat, j: nat, n: nat, a: seq<T>, b: seq<T>, c: seq<T>)
    requires i <= j <= n && p + n <= |s| && |a| == i && |b| == j - i && |c| == n - j
    requires s[p..p + n] == a + b + c
    ensures s[p..p + i] == a && s[p + i..p + j] == b && s[p + j..p + n] == c
  {
    PartsAt(s, p, a, b, c);
  }

  /** OverwriteInside with the parts and both results named: writing v at
      q, which is r into the middle part b of s starting at o, gives t. */
  lemma {:induction false} OverwritePart(s: seq<u8>, o: nat, x: seq<u8>, b: seq<u8>, z: seq<u8>, r: nat, q: nat, v: seq<u8>, b2: seq<u8>, t: seq<u8>)
    requires s == x + b + z && |x| == o && r + |v| <= |b| && q == o + r
    requires b2 == Overwrite(b, r, v) && t == x + b2 + z
    ensures q + |v| <= |s| && Overwrite(s, q, v) == t
  {
    OverwriteInside(x, b, z, r, q, v);
  }

  /** Three adjacent slices of s, cut at i and j, make up the slice they span. */
  lemma {:induction false} JoinAt<T>(s: seq<T>, p: nat, i: nat, j: nat, k: nat, a: seq<T>, b: seq<T>, c: seq<T>)
    requires p <= i <= j <= k <= |s|
    requires s[p..i] == a && s[i..j] == b && s[j..k] == c
    ensures s[p..k] == a + b + c
  {
    SplitAt3(s, p, i, j, k);
  }

  /** Overwriting right after a prefix replaces the head of what follows. */
  lemma {:induction false} OverwriteAfter(a: seq<u8>, t: seq<u8>, v: seq<u8>)
    requires |v| <= |t|
    ensures Overwrite(a + t, |a|, v) == a + v + t[|v|..]
  {
    assert (a + t)[..|a|] == a;
    assert (a + t)[|a| + |v|..] == t[|v|..];
  }

  lemma {:induction false} Assoc<T>(a: seq<T>, b: seq<T>, c: seq<T>)
    ensures a + (b + c) == a + b + c
  {
  }

  /** The regrouping that isolates the fourth of six parts. */
  lemma {:induction false} Regroup<T>(h: seq<T>, a: seq<T>, t: seq<T>, x: seq<T>, c: seq<T>, z: seq<T>)
    ensures h + (a + (t + x) + c) + z == (h + a + t) + x + (c + z)
  {
  }

  /** A slice of a slice is a slice of the whole. */
  lemma {:induction false} SliceOfSlice<T>(s: seq<T>, p: nat, n: nat, i: nat, j: nat)
    requires p + n <= |s| && i <= j <= n
    ensures s[p..p + n][i..j] == s[p + i..p + j]
  {
    var t := s[p..p + n];
    forall k | 0 <= k < j - i
      ensures t[i..j][k] == s[p + i..p + j][k]
    {
      assert t[i..j][k] == t[i + k] == s[p + i + k];
    }
  }
  /** Three parts laid out back to back at p, taken back out of s by offset. */
  lemma {:induction false} PartsAt<T>(s: seq<T>, p: nat, a: seq<T>, b: seq<T>, c: seq<T>)
    requires p + |a| + |b| + |c| <= |s| && s[p..p + |a| + |b| + |c|] == a + b + c
    ensures s[p..p + |a|] == a
    ensures s[p + |a|..p + |a| + |b|] == b
    ensures s[p + |a| + |b|..p + |a| + |b| + |c|] == c
  {
    var n := |a| + |b| + |c|;
    Slice3(a, b, c);
    SliceOfSlice(s, p, n, 0, |a|);
    SliceOfSlice(s, p, n, |a|, |a| + |b|);
    SliceOfSlice(s, p, n, |a| + |b|, n);
  }

  /** A slice cut in three at i and j. */
  lemma {:induction false} SplitAt3<T>(s: seq<T>, p: nat, i: nat, j: nat, q: nat)
    requires p <= i <= j <= q <= |s|
    ensures s[p..q] == s[p..i] + s[i..j] + s[j..q]
  {
  }

  /** A slice that ends inside the first part of a concatenation is a slice of that part. */
  lemma {:induction false} SliceOfFront<T>(a: seq<T>, z: seq<T>, i: nat, j: nat)
    requires i <= j <= |a|
    ensures (a + z)[i..j] == a[i..j]
  {
  }

  /** Writing inside the middle part of a concatenation writes inside that part. */
  lemma {:induction false} OverwriteInside(x: seq<u8>, b: seq<u8>, z: seq<u8>, r: nat, q: nat, v: seq<u8>)
    requires r + |v| <= |b| && q == |x| + r
    ensures Overwrite(x + b + z, q, v) == x + Overwrite(b, r, v) + z
  {
    var lhs, rhs := Overwrite(x + b + z, q, v), x + Overwrite(b, r, v) + z;
    forall k | 0 <= k < |lhs|
      ensures lhs[k] == rhs[k]
    {
      if q <= k < q + |v| {
        assert lhs[k] == lhs[q..q + |v|][k - q];
        assert rhs[k] == Overwrite(b, r, v)[r..r + |v|][k - |x| - r];
      }
    }
  }

  /** Writing before n and then keeping the first n bytes: keep, then write. */
  lemma {:induction false} OverwritePrefix(s: seq<u8>, n: nat, p: nat, v: seq<u8>)
    requires p + |v| <= n <= |s|
    ensures Overwrite(s, p, v)[..n] == Overwrite(s[..n], p, v)
  {
    assert Overwrite(s, p, v)[..n] == s[..p] + v + s[p + |v|..n];
  }
}
