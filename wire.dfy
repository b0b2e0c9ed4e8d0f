/** The .NET primitives the codec is built from: bytes, 32-bit signed integers with
    unchecked (wrapping) arithmetic, `BitConverter` in little-endian byte order, and the
    LINQ operators `Take` and `Skip`. */
module Wire {
  import opened Wrappers

  type byte = b: int | 0 <= b < 0x100

  const INT32_MIN: int := -0x8000_0000
  const INT32_MAX: int := 0x7fff_ffff

  /** C# `int`. */
  type int32 = x: int | -0x8000_0000 <= x <= 0x7fff_ffff

  /** C# unchecked `int` arithmetic: the result is congruent to `x` modulo 2^32. */
  function WrapInt32(x: int): (r: int32)
    ensures (x - r) % 0x1_0000_0000 == 0
    ensures INT32_MIN <= x <= INT32_MAX ==> r == x
  {
    var u := x % 0x1_0000_0000;
    if u <= INT32_MAX then u else u - 0x1_0000_0000
  }

  /** `BitConverter.GetBytes(int)` on a little-endian host: the two's complement bytes,
      least significant first. `GetBytes((uint)v)` gives the same bytes for v >= 0. */
  function Int32ToBytes(v: int32): (b: seq<byte>)
    ensures |b| == 4
  {
    var u := if v < 0 then v + 0x1_0000_0000 else v;
    var q1 := u / 0x100;
    var q2 := q1 / 0x100;
    [u % 0x100, q1 % 0x100, q2 % 0x100, q2 / 0x100]
  }

  /** Little-endian signed reading of four bytes, the inverse of `Int32ToBytes`. */
  function BytesToInt32(b: seq<byte>): (r: int32)
    requires |b| == 4
    ensures r < 0 <==> b[3] >= 0x80
    ensures r % 0x100 == b[0]
  {
    var u: int := b[0] as int + 0x100 * b[1] as int + 0x1_0000 * b[2] as int + 0x100_0000 * b[3] as int;
    if u <= INT32_MAX then u else u - 0x1_0000_0000
  }

  /** What the source's reads actually call: `Convert.ToInt32(object)` on a `byte[]`, which
      does not parse the bytes; a `byte[]` is not `IConvertible`, so the call always throws
      `InvalidCastException`. */
  function ConvertToInt32AsWritten(b: seq<byte>): (r: Result<int32, ()>)
    ensures r.Err?
  {
    Err(())
  }

  lemma ConvertToInt32AsWrittenNeverReadsMarker(v: int32)
    ensures ConvertToInt32AsWritten(Int32ToBytes(v)) != Ok(v)
  {
  }

  lemma Int32RoundTrip(v: int32)
    ensures BytesToInt32(Int32ToBytes(v)) == v
  {
    var u := if v < 0 then v + 0x1_0000_0000 else v;
    var q1 := u / 0x100;
    var q2 := q1 / 0x100;
    assert u == u % 0x100 + 0x100 * q1;
    assert q1 == q1 % 0x100 + 0x100 * q2;
    assert q2 == q2 % 0x100 + 0x100 * (q2 / 0x100);
  }

  lemma DivMod256(a: int, k: int)
    requires 0 <= a < 0x100
    ensures (a + 0x100 * k) % 0x100 == a && (a + 0x100 * k) / 0x100 == k
  {
  }

  lemma BytesRoundTrip(b: seq<byte>)
    requires |b| == 4
    ensures Int32ToBytes(BytesToInt32(b)) == b
  {
    var b0: int, b1: int, b2: int, b3: int := b[0], b[1], b[2], b[3];
    DivMod256(b0, b1 + 0x100 * (b2 + 0x100 * b3));
    DivMod256(b1, b2 + 0x100 * b3);
    DivMod256(b2, b3);
    DivMod256(b3, 0);
    var r := Int32ToBytes(BytesToInt32(b));
    assert r[0] == b[0] && r[1] == b[1] && r[2] == b[2] && r[3] == b[3];
  }

  /** The number of elements LINQ's `Take(n)` keeps (and `Skip(n)` drops): none for a
      negative count, all of them for a count past the end. */
  function Clamp(n: int, len: nat): (k: nat)
    ensures k <= len
    ensures 0 <= n <= len ==> k == n
    ensures n <= 0 ==> k == 0
    ensures n >= len ==> k == len
  {
    if n <= 0 then 0 else if n >= len then len else n
  }

  /** `s.Take(n)`. */
  function Take<T>(s: seq<T>, n: int): (r: seq<T>)
    ensures |r| == Clamp(n, |s|)
    ensures r == s[..|r|]
  {
    s[..Clamp(n, |s|)]
  }

  /** `s.Skip(n)`. */
  function Skip<T>(s: seq<T>, n: int): (r: seq<T>)
    ensures |r| == |s| - Clamp(n, |s|)
    ensures r == s[|s| - |r|..]
  {
    s[Clamp(n, |s|)..]
  }

  /** `Take` and `Skip` with the same count split a sequence in two without losing or
      reordering anything. */
  lemma TakeSkipSplit<T>(s: seq<T>, n: int)
    ensures Take(s, n) + Skip(s, n) == s
  {
    assert s[..Clamp(n, |s|)] + s[Clamp(n, |s|)..] == s;
  }
}
