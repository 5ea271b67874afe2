/**
 * The byte-buffer primitives app.js relies on: a `Uint8Array` element, the
 * big-endian `DataView.getUint32` / `setUint32`, and `TypedArray.set`.
 */
module Buffers {

  /** One element of a `Uint8Array`. */
  newtype byte = b: int | 0 <= b < 256

  const Two32: int := 0x1_0000_0000

  /** ECMAScript ToUint32, which `setUint32` applies to the value it stores. */
  function ToUint32(v: int): (r: nat)
    ensures r < Two32
    ensures (v - r) % Two32 == 0
    ensures 0 <= v < Two32 ==> r == v
  {
    v % Two32
  }

  /** The four bytes `setUint32` writes for `v`, most significant first. */
  function BigEndian32(v: nat): (s: seq<byte>)
    requires v < Two32
    ensures |s| == 4
  {
    var q1 := v / 0x100;
    var q2 := q1 / 0x100;
    var q3 := q2 / 0x100;
    [q3 as byte, (q2 % 0x100) as byte, (q1 % 0x100) as byte, (v % 0x100) as byte]
  }

  /** `getUint32(i)`: the four bytes at `i` read most significant first. */
  function GetUint32(s: seq<byte>, i: nat): (r: nat)
    requires i + 4 <= |s|
    ensures r < Two32
  {
    ((s[i] as int * 0x100 + s[i + 1] as int) * 0x100 + s[i + 2] as int) * 0x100 + s[i + 3] as int
  }

  /** Splitting off the low byte of `x * 256 + d`. */
  lemma DivMod256(x: int, d: int)
    requires 0 <= d < 0x100
    ensures (x * 0x100 + d) / 0x100 == x && (x * 0x100 + d) % 0x100 == d
  {
  }

  /** Reading back what `setUint32` wrote gives the value. */
  lemma GetUint32OfBigEndian32(v: nat)
    requires v < Two32
    ensures GetUint32(BigEndian32(v), 0) == v
  {
    var q1 := v / 0x100;
    var q2 := q1 / 0x100;
    var q3 := q2 / 0x100;
    assert v == q1 * 0x100 + v % 0x100;
    assert q1 == q2 * 0x100 + q1 % 0x100;
    assert q2 == q3 * 0x100 + q2 % 0x100;
  }

  /** Writing what `getUint32` read gives the same four bytes. */
  lemma BigEndian32OfGetUint32(s: seq<byte>, i: nat)
    requires i + 4 <= |s|
    ensures BigEndian32(GetUint32(s, i)) == s[i..i + 4]
  {
    var a, b, c, d := s[i] as int, s[i + 1] as int, s[i + 2] as int, s[i + 3] as int;
    DivMod256((a * 0x100 + b) * 0x100 + c, d);
    DivMod256(a * 0x100 + b, c);
    DivMod256(a, b);
  }

  /** A slice of a slice is the slice of the original at the shifted bounds. */
  lemma SliceOfSlice(s: seq<byte>, i: nat, j: nat, a: nat, b: nat)
    requires i <= j <= |s| && a <= b <= j - i
    ensures s[i..j][a..b] == s[i + a..i + b]
  {
    forall k | 0 <= k < b - a
      ensures s[i..j][a..b][k] == s[i + a..i + b][k]
    {
    }
  }

  /**
   * `view.setUint32(offset, value)` on a `DataView` over `a`: stores
   * ToUint32(value) big-endian at `offset`, nothing else changes.
   */
  method SetUint32(a: array<byte>, offset: nat, value: int)
    requires offset + 4 <= a.Length
    modifies a
    ensures a[offset..offset + 4] == BigEndian32(ToUint32(value))
    ensures forall i :: 0 <= i < a.Length && (i < offset || offset + 4 <= i) ==> a[i] == old(a[i])
  {
    var bytes := BigEndian32(ToUint32(value));
    a[offset] := bytes[0];
    a[offset + 1] := bytes[1];
    a[offset + 2] := bytes[2];
    a[offset + 3] := bytes[3];
  }

  /**
   * `dst.set(src, offset)`: copies `src` into `dst` from `offset`. When
   * `src` does not fit, the call throws RangeError (`ok` is false) and
   * `dst` is left as it was.
   */
  method SetBytes(dst: array<byte>, src: seq<byte>, offset: nat) returns (ok: bool)
    modifies dst
    ensures ok <==> offset + |src| <= dst.Length
    ensures ok ==> dst[..] == old(dst[..offset]) + src + old(dst[offset + |src|..])
    ensures !ok ==> dst[..] == old(dst[..])
  {
    ok := offset + |src| <= dst.Length;
    if ok {
      forall i | 0 <= i < |src| {
        dst[offset + i] := src[i];
      }
    }
  }
}
