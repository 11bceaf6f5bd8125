/** Shared vocabulary: bytes, 32-bit words, little-endian packing, Python slicing
    semantics, and the exceptions the host raises. */
module Common {

  /** One byte of target memory or of a host `bytes` object. */
  type byte = x: int | 0 <= x < 256

  type Bytes = seq<byte>

  /** A SHA-256 digest. */
  type Digest = b: Bytes | |b| == 32 witness seq(32, _ => 0)

  type pos = x: int | x > 0 witness 1

  const U32_LIMIT: int := 0x1_0000_0000

  /** An unsigned 32-bit value as the target's registers and `uint32_t` fields hold it. */
  type u32 = x: int | 0 <= x < 0x1_0000_0000

  /** A value as a 32-bit field holds it: the low 32 bits, read as unsigned. */
  function Word(x: int): u32
  {
    x % U32_LIMIT
  }

  datatype Option<+T> = None | Some(value: T)

  /** The exceptions of the host code, and the target-side assertion failure. */
  datatype Error =
    | ValueError
    | TimeoutError
    | DataError(status: string)
    | TransportError
    | StructError
    | AssertionError
    | TypeError
    | IndexError
    | FileNotFoundError
    | InsufficientSpaceError
    | FragmentationError
    | SubsetSumOptimizationError
    | HashMismatchError(expected: string, actual: string)

  datatype Result<+T> = Ok(value: T) | Err(error: Error)

  /** The outcome of a call that returns nothing (Python `None`) or raises. */
  datatype Outcome = Pass | Fail(error: Error)

  function Min(a: int, b: int): int { if a <= b then a else b }

  function Max(a: int, b: int): int { if a >= b then a else b }

  /** Python's `s[a:b]` for 0 <= a: bounds past the end are clipped. */
  function Slice<T>(s: seq<T>, a: nat, b: nat): (r: seq<T>)
    ensures |r| == if Min(b, |s|) >= a then Min(b, |s|) - a else 0
    ensures forall k :: 0 <= k < |r| ==> r[k] == s[a + k]
  {
    var hi := Min(b, |s|);
    if a <= hi then s[a..hi] else []
  }

  /** Python's slice assignment `s[a:b] = v` for 0 <= a <= b: the clipped window is
      replaced by `v`, whatever the length of `v`. */
  function SliceAssign<T>(s: seq<T>, a: nat, b: nat, v: seq<T>): (r: seq<T>)
    requires a <= b
    ensures |r| == |s| - (Min(b, |s|) - Min(a, |s|)) + |v|
    ensures r[..Min(a, |s|)] == s[..Min(a, |s|)]
    ensures r[Min(a, |s|)..Min(a, |s|) + |v|] == v
    ensures r[Min(a, |s|) + |v|..] == s[Min(b, |s|)..]
  {
    var lo, hi := Min(a, |s|), Min(b, |s|);
    s[..lo] + v + s[hi..]
  }

  /** A slice assignment whose replacement fills the window exactly keeps the length,
      writes the window and leaves every other element alone. */
  lemma SliceAssignInPlace<T>(s: seq<T>, a: nat, v: seq<T>)
    requires a + |v| <= |s|
    ensures |SliceAssign(s, a, a + |v|, v)| == |s|
    ensures forall k :: 0 <= k < |v| ==> SliceAssign(s, a, a + |v|, v)[a + k] == v[k]
    ensures forall k :: 0 <= k < |s| && !(a <= k < a + |v|) ==> SliceAssign(s, a, a + |v|, v)[k] == s[k]
  {
    var r := SliceAssign(s, a, a + |v|, v);
    assert r == s[..a] + v + s[a + |v|..];
    forall k | 0 <= k < |s| && !(a <= k < a + |v|) ensures r[k] == s[k] {
      if k >= a + |v| {
        assert r[k] == s[a + |v|..][k - a - |v|];
      }
    }
  }

  /** `n` copies of `b`. */
  function Repeat(b: byte, n: nat): (r: Bytes)
    ensures |r| == n && forall k :: 0 <= k < n ==> r[k] == b
  {
    seq(n, _ => b)
  }

  /** `struct.pack("<I", v)`: four bytes, least significant first; out-of-range values
      make `struct` raise. */
  function PackU32(v: int): (r: Result<Bytes>)
    ensures r.Ok? <==> 0 <= v < U32_LIMIT
    ensures r.Ok? ==> |r.value| == 4
  {
    if 0 <= v < U32_LIMIT then
      Ok([v % 256, (v / 256) % 256, (v / 0x1_0000) % 256, v / 0x100_0000])
    else
      Err(StructError)
  }

  /** `struct.unpack_from("<I", data, at)`; too few bytes make `struct` raise. */
  function UnpackU32(data: Bytes, at: nat): (r: Result<u32>)
    ensures r.Ok? <==> at + 4 <= |data|
  {
    if at + 4 <= |data| then
      Ok(data[at] as int + 256 * data[at + 1] as int + 0x1_0000 * data[at + 2] as int
         + 0x100_0000 * data[at + 3] as int)
    else
      Err(StructError)
  }

  /** Unpacking what was packed gives the value back, whatever follows it. */
  lemma PackUnpackU32(v: int, rest: Bytes)
    requires 0 <= v < U32_LIMIT
    ensures PackU32(v).Ok? && UnpackU32(PackU32(v).value + rest, 0) == Ok(v)
  {
    var b := PackU32(v).value;
    assert (b + rest)[..4] == b;
    var q1 := v / 256;
    var q2 := q1 / 256;
    var q3 := q2 / 256;
    DivUnique(v, 0x1_0000, q2, v % 256 + 256 * (q1 % 256));
    DivUnique(v, 0x100_0000, q3, v % 256 + 256 * (q1 % 256) + 0x1_0000 * (q2 % 256));
  }

  /** A packed word reads back at its own position, whatever surrounds it. */
  lemma PackUnpackU32At(prefix: Bytes, v: int, rest: Bytes)
    requires 0 <= v < U32_LIMIT
    ensures PackU32(v).Ok? && UnpackU32(prefix + PackU32(v).value + rest, |prefix|) == Ok(v)
  {
    var b := PackU32(v).value;
    var d := prefix + b + rest;
    PackUnpackU32(v, rest);
    assert d[|prefix|..] == b + rest;
    UnpackU32Shift(d, |prefix|);
  }

  /** Unpacking at `at` reads only the four bytes from `at` on. */
  lemma UnpackU32Shift(data: Bytes, at: nat)
    requires at <= |data|
    ensures UnpackU32(data, at) == UnpackU32(data[at..], 0)
  {
    if at + 4 <= |data| {
      assert data[at..][0] == data[at] && data[at..][1] == data[at + 1];
      assert data[at..][2] == data[at + 2] && data[at..][3] == data[at + 3];
    }
  }

  /** `[data[i:i+n] for i in range(0, len(data), n)]`. */
  function Chunks<T>(data: seq<T>, n: nat): (r: seq<seq<T>>)
    requires n > 0
    decreases |data|
  {
    if |data| == 0 then [] else if |data| <= n then [data] else [data[..n]] + Chunks(data[n..], n)
  }

  /** Number of chunks: `ceil(len / n)`. */
  function CeilDiv(a: nat, n: nat): nat
    requires n > 0
  {
    (a + n - 1) / n
  }

  /** Concatenation of a sequence of sequences. */
  function Flatten<T>(xs: seq<seq<T>>): seq<T>
  {
    if xs == [] then [] else xs[0] + Flatten(xs[1..])
  }

  /** Gluing the chunks back together gives the data. */
  lemma {:induction false} ChunksFlatten<T>(data: seq<T>, n: nat)
    requires n > 0
    ensures Flatten(Chunks(data, n)) == data
    decreases |data|
  {
    if |data| > n {
      ChunksFlatten(data[n..], n);
      assert data == data[..n] + data[n..];
    }
  }

  /** There are `ceil(len / n)` chunks, none empty and none longer than `n`. */
  lemma {:induction false} ChunksBounded<T>(data: seq<T>, n: nat)
    requires n > 0
    ensures |Chunks(data, n)| == CeilDiv(|data|, n)
    ensures forall k :: 0 <= k < |Chunks(data, n)| ==> 0 < |Chunks(data, n)[k]| <= n
    decreases |data|
  {
    if |data| > n {
      ChunksBounded(data[n..], n);
      DivStep(|data| - n + n - 1, n);
    } else if |data| > 0 {
      DivOne(|data| + n - 1, n);
    }
  }

  /** Euclidean division is determined by any quotient and remainder in range. */
  lemma DivUnique(a: int, n: int, q: int, r: int)
    requires n > 0 && 0 <= r < n && a == q * n + r
    ensures a / n == q && a % n == r
  {
    var q', r' := a / n, a % n;
    assert (q' - q) * n == r - r';
    if q' > q {
      MulAtLeast(q' - q, n);
    } else if q' < q {
      MulAtLeast(q - q', n);
    }
  }

  lemma MulAtLeast(x: int, n: int)
    requires x >= 1 && n > 0
    ensures x * n >= n
  {
  }

  /** Adding the divisor adds one to the quotient. */
  lemma DivStep(a: nat, n: nat)
    requires n > 0
    ensures (a + n) / n == a / n + 1
  {
    DivUnique(a + n, n, a / n + 1, a % n);
  }

  /** A value in [n, 2n) has quotient one. */
  lemma DivOne(a: nat, n: nat)
    requires 0 < n <= a < 2 * n
    ensures a / n == 1
  {
    DivUnique(a, n, 1, a - n);
  }

  /** Chunk `k` is `data[k*n : (k+1)*n]`, clipped at the end of the data. */
  lemma {:induction false} ChunkAt<T>(data: seq<T>, n: nat, k: nat)
    requires n > 0 && k < |Chunks(data, n)|
    ensures k * n < |data|
    ensures Chunks(data, n)[k] == data[k * n .. Min((k + 1) * n, |data|)]
    decreases |data|
  {
    if |data| > n && k > 0 {
      ChunkAt(data[n..], n, k - 1);
      assert (k - 1) * n + n == k * n;
    }
  }
}
