/**
 * injectPngDPI (app.js): splice a `pHYs` chunk recording the pixel density
 * into a PNG byte stream, just before the first `IDAT` chunk.
 *
 * A PNG stream is an 8-byte signature followed by chunks laid out as
 * `length | type | data | crc`, with a big-endian 4-byte length counting the
 * data only (Portable Network Graphics Specification, Second Edition,
 * sections 5.2 and 5.3). The `pHYs` chunk carries x and y pixels per unit
 * and a unit byte, 1 meaning the metre (section 11.3.5.3), and must come
 * before the first `IDAT` (section 5.6).
 */
module PngDpi {
  import opened Buffers
  import Crc32

  /** Bytes of the PNG signature, which the scan skips unread. */
  const SignatureLength: nat := 8

  /** Length, type and CRC fields around a chunk's data. */
  const ChunkOverhead: nat := 12

  /** The ASCII chunk type "IDAT". */
  const IdatType: seq<byte> := [0x49, 0x44, 0x41, 0x54]

  /** The ASCII chunk type "pHYs". */
  const PhysType: seq<byte> := [0x70, 0x48, 0x59, 0x73]

  /** Data length of a `pHYs` chunk: two 4-byte densities and the unit byte. */
  const PhysDataLength: nat := 9

  /** Unit byte value meaning "pixels per metre". */
  const UnitMetre: byte := 1

  /**
   * `bytes[i]` as `String.fromCharCode` sees it: past the end the element
   * is `undefined`, which converts to the character code 0.
   */
  function CharCodeAt(s: seq<byte>, i: nat): byte
  {
    if i < |s| then s[i] else 0
  }

  /** The four type bytes of the chunk that starts at `p`. */
  function TypeAt(s: seq<byte>, p: nat): (t: seq<byte>)
    ensures |t| == 4
    ensures p + 8 <= |s| ==> t == s[p + 4..p + 8]
  {
    [CharCodeAt(s, p + 4), CharCodeAt(s, p + 5), CharCodeAt(s, p + 6), CharCodeAt(s, p + 7)]
  }

  /** The chunk starting at `p` is tagged `IDAT`. */
  predicate IsIdatAt(s: seq<byte>, p: nat)
  {
    TypeAt(s, p) == IdatType
  }

  /** A chunk header cut off by the end of the buffer never reads as `IDAT`. */
  lemma IdatHeaderIsComplete(s: seq<byte>, p: nat)
    requires IsIdatAt(s, p)
    ensures p + 8 <= |s|
  {
  }

  /** Where the chunk walk of injectPngDPI stops. */
  datatype ScanEnd =
    | AtIdat(pos: nat)       // the chunk at `pos` is the first IDAT
    | PastEnd(pos: nat)      // the walk reached or passed the end without an IDAT
    | ShortLength(pos: nat)  // fewer than 4 bytes remain at `pos`: getUint32 throws

  /**
   * The chunk walk from `pos`: stop at the end of the buffer or at an
   * `IDAT` chunk, otherwise jump over the chunk (12 bytes of envelope plus
   * its declared length).
   */
  function Scan(s: seq<byte>, pos: nat): (e: ScanEnd)
    ensures pos <= e.pos
    ensures e.AtIdat? ==> e.pos + 8 <= |s| && IsIdatAt(s, e.pos)
    ensures e.PastEnd? ==> |s| <= e.pos
    ensures e.ShortLength? ==> e.pos < |s| < e.pos + 4
    decreases |s| - pos
  {
    if pos >= |s| then PastEnd(pos)
    else if pos + 4 > |s| then ShortLength(pos)
    else if IsIdatAt(s, pos) then (IdatHeaderIsComplete(s, pos); AtIdat(pos))
    else Scan(s, pos + ChunkOverhead + GetUint32(s, pos))
  }

  /** One round of the walk at a position with a readable length field. */
  lemma ScanStep(s: seq<byte>, pos: nat)
    requires pos + 4 <= |s|
    ensures IsIdatAt(s, pos) ==> Scan(s, pos) == AtIdat(pos)
    ensures !IsIdatAt(s, pos) ==> Scan(s, pos) == Scan(s, pos + ChunkOverhead + GetUint32(s, pos))
  {
  }

  /** Why injectPngDPI throws a RangeError. */
  datatype Error =
    | LengthOutOfRange(pos: nat)  // `view.getUint32(pos)` with fewer than 4 bytes left
    | ChunkOutOfRange(pos: nat)   // `result.set(pHYs, pos)` past the end of `result`

  datatype Result<T> = Ok(value: T) | Err(error: Error)

  /** The position where the `pHYs` chunk goes, or the error the scan leads to. */
  function InsertPos(s: seq<byte>): (r: Result<nat>)
    ensures r.Ok? ==> SignatureLength <= r.value <= |s|
    ensures r.Ok? ==> r.value == |s| || IsIdatAt(s, r.value)
  {
    match Scan(s, SignatureLength)
    case AtIdat(p) => Ok(p)
    case ShortLength(p) => Err(LengthOutOfRange(p))
    case PastEnd(p) => if p == |s| then Ok(p) else Err(ChunkOutOfRange(p))
  }

  /**
   * `Math.round(dpi * 39.3701)` on exact decimals: the integer nearest to
   * dpi * 39.3701, halves rounded up.
   */
  function Ppm(dpi: int): (r: int)
    ensures 10000 * r - 5000 <= 393701 * dpi < 10000 * r + 5000
  {
    (393701 * dpi + 5000) / 10000
  }

  /** The 21-byte `pHYs` chunk for `ppm` pixels per metre on both axes. */
  function PhysChunk(ppm: int): (c: seq<byte>)
    ensures |c| == ChunkOverhead + PhysDataLength
  {
    var density := BigEndian32(ToUint32(ppm));
    var typeAndData := PhysType + density + density + [UnitMetre];
    BigEndian32(PhysDataLength) + typeAndData + BigEndian32(Crc32.Unsigned(Crc32.Checksum(typeAndData)))
  }

  /** What injectPngDPI returns for `s` and `dpi`. */
  function Inject(s: seq<byte>, dpi: int): (r: Result<seq<byte>>)
    ensures r.Ok? <==> InsertPos(s).Ok?
    ensures r.Err? ==> r.error == InsertPos(s).error
    ensures r.Ok? ==> |r.value| == |s| + 21
    ensures r.Ok? ==> var p := InsertPos(s).value;
      r.value[..p] == s[..p] && r.value[p..p + 21] == PhysChunk(Ppm(dpi)) && r.value[p + 21..] == s[p..]
  {
    match InsertPos(s)
    case Ok(p) => Ok(s[..p] + PhysChunk(Ppm(dpi)) + s[p..])
    case Err(e) => Err(e)
  }

  /**
   * injectPngDPI: walk the chunks from the end of the signature to the
   * first `IDAT`, build the `pHYs` chunk in a fresh 21-byte array, then
   * splice it into a result 21 bytes longer than the input.
   */
  method InjectPngDpi(buffer: seq<byte>, dpi: int) returns (r: Result<seq<byte>>)
    ensures r == Inject(buffer, dpi)
  {
    var ppm := Ppm(dpi);
    var found := FindInsertPos(buffer);
    if found.Err? {
      return Err(found.error);
    }
    var pHYs := BuildPhysChunk(ppm);
    r := Splice(buffer, pHYs[..], found.value);
  }

  /**
   * The chunk walk of injectPngDPI: the position it stops at, which may lie
   * past the end of the buffer, or the error `getUint32` throws.
   */
  method FindInsertPos(buffer: seq<byte>) returns (r: Result<nat>)
    ensures r.Err? <==> Scan(buffer, SignatureLength).ShortLength?
    ensures r.Err? ==> r.error == LengthOutOfRange(Scan(buffer, SignatureLength).pos)
    ensures r.Ok? ==> r.value == Scan(buffer, SignatureLength).pos
  {
    var n := |buffer|;
    var insertPos: nat := SignatureLength;
    while insertPos < n
      invariant SignatureLength <= insertPos
      invariant Scan(buffer, SignatureLength) == Scan(buffer, insertPos)
      decreases n - insertPos
    {
      if insertPos + 4 > n {
        return Err(LengthOutOfRange(insertPos));
      }
      var len := GetUint32(buffer, insertPos);
      ScanStep(buffer, insertPos);
      if TypeAt(buffer, insertPos) == IdatType {
        break;
      }
      insertPos := insertPos + ChunkOverhead + len;
    }
    r := Ok(insertPos);
  }

  /**
   * The three `result.set` calls: the prefix up to `p`, the chunk at `p`,
   * the rest of the input after it. The prefix copy is clamped to the input
   * (`slice` clamps its end to the input length), the chunk copy throws when `p` lies past the end.
   */
  method Splice(buffer: seq<byte>, chunk: seq<byte>, p: nat) returns (r: Result<seq<byte>>)
    requires |chunk| == 21
    ensures p <= |buffer| ==> r == Ok(buffer[..p] + chunk + buffer[p..])
    ensures |buffer| < p ==> r == Err(ChunkOutOfRange(p))
  {
    var n := |buffer|;
    var result := new byte[n + 21];
    var prefix := buffer[..if p <= n then p else n];
    var ok := SetBytes(result, prefix, 0);
    ok := SetBytes(result, chunk, p);
    if !ok {
      return Err(ChunkOutOfRange(p));
    }
    ghost var withChunk := result[..];
    ok := SetBytes(result, buffer[p..], p + 21);
    assert result[..] == buffer[..p] + chunk + buffer[p..] by {
      assert withChunk[..p] == buffer[..p];
      assert withChunk[..p + 21] == buffer[..p] + chunk;
    }
    r := Ok(result[..]);
  }

  /**
   * The `pHYs` chunk as injectPngDPI builds it: length 9, the type, the
   * density twice, the unit byte, then the CRC of bytes 4..16 stored at 17.
   */
  method BuildPhysChunk(ppm: int) returns (pHYs: array<byte>)
    ensures fresh(pHYs) && pHYs[..] == PhysChunk(ppm)
  {
    pHYs := new byte[21];
    WriteTypeAndData(pHYs, ppm);
    var typeAndData := pHYs[4..17];
    var crc := Crc32.Crc32(typeAndData);
    ghost var head := pHYs[..17];
    assert typeAndData == head[4..];
    SetUint32(pHYs, 17, Crc32.Unsigned(crc));
    assert pHYs[..] == head + pHYs[17..21];
    PhysChunkBuilt(head, pHYs[17..21], ppm);
  }

  /** Length, type, both densities and the unit byte: bytes 0..16 of the chunk. */
  method WriteTypeAndData(pHYs: array<byte>, ppm: int)
    requires pHYs.Length == 21
    modifies pHYs
    ensures pHYs[..17] == BigEndian32(PhysDataLength) + PhysType + BigEndian32(ToUint32(ppm)) + BigEndian32(ToUint32(ppm)) + [UnitMetre]
    ensures pHYs[17..] == old(pHYs[17..])
  {
    ghost var crcField := pHYs[17..];
    SetUint32(pHYs, 0, PhysDataLength);
    pHYs[4], pHYs[5], pHYs[6], pHYs[7] := 0x70, 0x48, 0x59, 0x73;
    SetUint32(pHYs, 8, ppm);
    SetUint32(pHYs, 12, ppm);
    pHYs[16] := UnitMetre;
    assert pHYs[17..] == crcField;
  }

  /** Bytes 0..16 as written followed by the CRC of bytes 4..16 make up `PhysChunk(ppm)`. */
  lemma PhysChunkBuilt(head: seq<byte>, crc: seq<byte>, ppm: int)
    requires head == BigEndian32(PhysDataLength) + PhysType + BigEndian32(ToUint32(ppm)) + BigEndian32(ToUint32(ppm)) + [UnitMetre]
    requires crc == BigEndian32(Crc32.Unsigned(Crc32.Checksum(head[4..])))
    ensures head + crc == PhysChunk(ppm)
  {
    var density := BigEndian32(ToUint32(ppm));
    assert head[4..] == PhysType + density + density + [UnitMetre];
  }
}
