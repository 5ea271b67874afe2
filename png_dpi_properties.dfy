/**
 * What the output of injectPngDPI looks like to a PNG reader: the inserted
 * chunk's fields read back, the chunk walk it is placed on, and where a
 * second injection lands.
 */
module PngDpiProperties {
  import opened Buffers
  import Crc32
  import opened PngDpi

  /** Reading the built chunk with `getUint32` and plain indexing gives back each field. */
  lemma PhysChunkLayout(ppm: int)
    ensures var c := PhysChunk(ppm);
      && GetUint32(c, 0) == PhysDataLength
      && c[4..8] == PhysType
      && GetUint32(c, 8) == ToUint32(ppm)
      && GetUint32(c, 12) == ToUint32(ppm)
      && c[16] == UnitMetre
      && GetUint32(c, 17) == Crc32.Unsigned(Crc32.Checksum(c[4..17]))
  {
    var c := PhysChunk(ppm);
    var density := BigEndian32(ToUint32(ppm));
    var typeAndData := PhysType + density + density + [UnitMetre];
    var crc := BigEndian32(Crc32.Unsigned(Crc32.Checksum(typeAndData)));
    assert c[4..17] == typeAndData;
    GetUint32OfBigEndian32(PhysDataLength);
    assert c[..4] == BigEndian32(PhysDataLength);
    GetUint32OfBigEndian32(ToUint32(ppm));
    assert c[8..12] == density && c[12..16] == density;
    GetUint32OfBigEndian32(Crc32.Unsigned(Crc32.Checksum(typeAndData)));
    assert c[17..21] == crc;
    GetUint32Slice(c, 0);
    GetUint32Slice(c, 8);
    GetUint32Slice(c, 12);
    GetUint32Slice(c, 17);
  }

  /** `getUint32` looks only at the four bytes it reads. */
  lemma GetUint32Slice(s: seq<byte>, i: nat)
    requires i + 4 <= |s|
    ensures GetUint32(s, i) == GetUint32(s[i..i + 4], 0)
  {
  }

  /**
   * One iteration of the injectPngDPI loop that does not stop: the chunk at
   * `p` has a readable length, is not `IDAT`, and the walk moves to `q`.
   */
  ghost predicate Hop(s: seq<byte>, p: nat, q: nat)
  {
    p + 4 <= |s| && !IsIdatAt(s, p) && q == p + ChunkOverhead + GetUint32(s, p)
  }

  /** Chunk positions visited in turn, starting at `path[0]`. */
  ghost predicate Walk(s: seq<byte>, path: seq<nat>)
  {
    |path| >= 1 && forall i :: 0 <= i < |path| - 1 ==> Hop(s, path[i], path[i + 1])
  }

  /** The scan from the start of a walk ends where the scan from its end does. */
  lemma {:induction false} ScanAlongWalk(s: seq<byte>, path: seq<nat>)
    requires Walk(s, path)
    ensures Scan(s, path[0]) == Scan(s, path[|path| - 1])
    decreases |path|
  {
    if |path| > 1 {
      assert Hop(s, path[0], path[1]);
      ScanStep(s, path[0]);
      var rest := path[1..];
      assert Walk(s, rest) by {
        forall i | 0 <= i < |rest| - 1
          ensures Hop(s, rest[i], rest[i + 1])
        {
          assert rest[i] == path[i + 1] && rest[i + 1] == path[i + 2];
        }
      }
      ScanAlongWalk(s, rest);
    }
  }

  /** Every scan follows a walk from where it starts to where it stops. */
  lemma {:induction false} ScanHasWalk(s: seq<byte>, pos: nat) returns (path: seq<nat>)
    ensures Walk(s, path) && path[0] == pos && path[|path| - 1] == Scan(s, pos).pos
    decreases |s| - pos
  {
    if pos >= |s| || pos + 4 > |s| || IsIdatAt(s, pos) {
      path := [pos];
    } else {
      var next := pos + ChunkOverhead + GetUint32(s, pos);
      ScanStep(s, pos);
      var rest := ScanHasWalk(s, next);
      path := [pos] + rest;
      WalkCons(s, pos, rest);
    }
  }

  /** A hop in front of a walk is a walk. */
  lemma WalkCons(s: seq<byte>, p: nat, rest: seq<nat>)
    requires Walk(s, rest) && Hop(s, p, rest[0])
    ensures Walk(s, [p] + rest)
  {
    var path := [p] + rest;
    forall i | 0 <= i < |path| - 1
      ensures Hop(s, path[i], path[i + 1])
    {
      if i > 0 {
        assert path[i] == rest[i - 1] && path[i + 1] == rest[i];
      }
    }
  }

  /**
   * The insertion point is exactly a chunk boundary reached from the end of
   * the signature by skipping non-`IDAT` chunks, that is either the end of
   * the buffer or the start of an `IDAT` chunk.
   */
  lemma InsertPosIsWalkEnd(s: seq<byte>, p: nat)
    ensures InsertPos(s) == Ok(p) <==>
      exists path :: Walk(s, path) && path[0] == SignatureLength && path[|path| - 1] == p && (p == |s| || IsIdatAt(s, p))
  {
    if InsertPos(s) == Ok(p) {
      var path := ScanHasWalk(s, SignatureLength);
      assert path[|path| - 1] == p;
    }
    if exists path :: Walk(s, path) && path[0] == SignatureLength && path[|path| - 1] == p && (p == |s| || IsIdatAt(s, p)) {
      var path :| Walk(s, path) && path[0] == SignatureLength && path[|path| - 1] == p && (p == |s| || IsIdatAt(s, p));
      ScanAlongWalk(s, path);
      if p != |s| {
        IdatHeaderIsComplete(s, p);
      }
    }
  }

  /**
   * A scan that stops at `p` only ever read bytes before `p`, so it stops at
   * `p` on any buffer with the same first `p` bytes.
   */
  lemma {:induction false} ScanSamePrefix(s: seq<byte>, o: seq<byte>, pos: nat, p: nat)
    requires Scan(s, pos).pos == p && p <= |s| && p <= |o| && o[..p] == s[..p]
    ensures Scan(o, pos) == Scan(o, p)
    decreases p - pos
  {
    if pos < p {
      var next := pos + ChunkOverhead + GetUint32(s, pos);
      assert pos + 8 <= p && Scan(s, next) == Scan(s, pos);
      SameHeader(s, o, pos, p);
      ScanSamePrefix(s, o, next, p);
    }
  }

  /**
   * When the chunk at `pos` is skipped and the walk still reaches `p`, its
   * header lies before `p`, and a buffer with the same first `p` bytes
   * skips it the same way.
   */
  lemma SameHeader(s: seq<byte>, o: seq<byte>, pos: nat, p: nat)
    requires pos + 8 <= p <= |s| && p <= |o| && o[..p] == s[..p]
    requires !IsIdatAt(s, pos)
    ensures Scan(o, pos) == Scan(o, pos + ChunkOverhead + GetUint32(s, pos))
  {
    assert o[pos..pos + 8] == s[pos..pos + 8] by {
      assert o[pos..pos + 8] == o[..p][pos..pos + 8];
      assert s[pos..pos + 8] == s[..p][pos..pos + 8];
    }
    assert TypeAt(o, pos) == TypeAt(s, pos);
    GetUint32Slice(o, pos);
    GetUint32Slice(s, pos);
    assert o[pos..pos + 4] == s[pos..pos + 4];
  }

  /**
   * The output is again a chunk walk that stops right after the inserted
   * `pHYs`: before the `IDAT` the input stopped at, or at the new end.
   * A reader walking the chunks therefore meets the `pHYs` before the
   * first `IDAT`.
   */
  lemma InjectedChunkIsWalked(s: seq<byte>, dpi: int)
    requires Inject(s, dpi).Ok?
    ensures InsertPos(Inject(s, dpi).value) == Ok(InsertPos(s).value + 21)
  {
    var p := InsertPos(s).value;
    var o := Inject(s, dpi).value;
    assert o[..p] == s[..p] && o[p..p + 21] == PhysChunk(Ppm(dpi)) && o[p + 21..] == s[p..];
    ScanSamePrefix(s, o, SignatureLength, p);
    PhysChunkSkipped(o, p, Ppm(dpi));
    if p < |s| {
      IdatMovedAlong(s, o, p);
      ScanStep(o, p + 21);
    }
    assert Scan(o, SignatureLength) == Scan(o, p + 21);
  }

  /** A `pHYs` chunk built by injectPngDPI is never `IDAT`: the walk skips exactly its 21 bytes. */
  lemma PhysChunkSkipped(o: seq<byte>, p: nat, ppm: int)
    requires p + 21 <= |o| && o[p..p + 21] == PhysChunk(ppm)
    ensures Scan(o, p) == Scan(o, p + 21)
  {
    var c := o[p..p + 21];
    SliceOfSlice(o, p, p + 21, 4, 8);
    SliceOfSlice(o, p, p + 21, 0, 4);
    assert c[..4] == c[0..4];
    PhysChunkLayout(ppm);
    assert TypeAt(o, p) == PhysType;
    GetUint32Slice(o, p);
    GetUint32Slice(c, 0);
  }

  /** The `IDAT` header the input stopped at is still there, 21 bytes further on. */
  lemma IdatMovedAlong(s: seq<byte>, o: seq<byte>, p: nat)
    requires IsIdatAt(s, p) && p + 21 <= |o| && o[p + 21..] == s[p..]
    ensures IsIdatAt(o, p + 21)
  {
    IdatHeaderIsComplete(s, p);
    assert o[p + 25..p + 29] == o[p + 21..][4..8];
    assert s[p + 4..p + 8] == s[p..][4..8];
  }

  /**
   * Injecting twice stacks the chunks: the second `pHYs` goes directly
   * after the first, since the second walk skips the first `pHYs` and stops
   * where the first walk stopped. Nothing removes an earlier `pHYs`.
   */
  lemma InjectTwice(s: seq<byte>, dpi1: int, dpi2: int)
    requires Inject(s, dpi1).Ok?
    ensures var p := InsertPos(s).value;
      Inject(Inject(s, dpi1).value, dpi2) == Ok(s[..p] + PhysChunk(Ppm(dpi1)) + PhysChunk(Ppm(dpi2)) + s[p..])
  {
    var p := InsertPos(s).value;
    var o := Inject(s, dpi1).value;
    InjectedChunkIsWalked(s, dpi1);
    assert o[..p + 21] == s[..p] + PhysChunk(Ppm(dpi1));
    assert o[p + 21..] == s[p..];
  }

  /**
   * Nothing checks the signature: a buffer of at most 8 bytes takes no
   * scan step, so 8 bytes get the chunk appended and fewer make the chunk
   * copy throw.
   */
  lemma ShortBuffers(s: seq<byte>, dpi: int)
    requires |s| <= SignatureLength
    ensures |s| == SignatureLength ==> Inject(s, dpi) == Ok(s + PhysChunk(Ppm(dpi)))
    ensures |s| < SignatureLength ==> Inject(s, dpi) == Err(ChunkOutOfRange(SignatureLength))
  {
    assert Scan(s, SignatureLength) == PastEnd(SignatureLength);
    if |s| == SignatureLength {
      var c := PhysChunk(Ppm(dpi));
      assert InsertPos(s) == Ok(SignatureLength);
      assert s[..SignatureLength] + c + s[SignatureLength..] == s + c;
    }
  }

  /**
   * The densities written for common resolutions: 72 dpi is 2835, 96 dpi
   * is 3780 and 300 dpi is 11811 pixels per metre.
   */
  lemma PpmOfCommonDpi()
    ensures Ppm(72) == 2835 && Ppm(96) == 3780 && Ppm(300) == 11811
  {
  }

  /**
   * For every resolution the form accepts (at least 1) up to about 109
   * million dpi, the density fits in 32 bits: a reader gets back exactly
   * the rounded density on both axes. Above that,
   * `setUint32` stores it modulo 2^32.
   */
  lemma DensityReadsBack(dpi: int)
    requires 1 <= dpi <= 109_000_000
    ensures 39 <= Ppm(dpi) < Two32
    ensures GetUint32(PhysChunk(Ppm(dpi)), 8) == Ppm(dpi)
    ensures GetUint32(PhysChunk(Ppm(dpi)), 12) == Ppm(dpi)
  {
    PpmMonotone(1, dpi);
    PpmMonotone(dpi, 109_000_000);
    PhysChunkLayout(Ppm(dpi));
  }

  /** Rounding after scaling keeps the order of resolutions. */
  lemma PpmMonotone(dpi: int, dpi2: int)
    requires dpi <= dpi2
    ensures Ppm(dpi) <= Ppm(dpi2)
  {
    assert 393701 * dpi + 5000 <= 393701 * dpi2 + 5000;
  }

  lemma PhysChecksumEntries1()
    ensures Crc32.TableEntry(0x8F) == 0x7D079EB1
    ensures Crc32.TableEntry(0x06) == 0xE963A535
    ensures Crc32.TableEntry(0x0D) == 0x7EB17CBD
    ensures Crc32.TableEntry(0x93) == 0x6906C2FE
  {
    assert Crc32.Steps(0x8F, 8) == 0x7D079EB1;
    assert Crc32.Steps(0x06, 8) == 0xE963A535;
    assert Crc32.Steps(0x0D, 8) == 0x7EB17CBD;
    assert Crc32.Steps(0x93, 8) == 0x6906C2FE;
  }

  lemma PhysChecksumEntries2()
    ensures Crc32.TableEntry(0x9C) == 0xF9B9DF6F
    ensures Crc32.TableEntry(0xF5) == 0xCDD70693
    ensures Crc32.TableEntry(0x1A) == 0xFD62F97A
    ensures Crc32.TableEntry(0x66) == 0xA4D1C46D
  {
    assert Crc32.Steps(0x9C, 8) == 0xF9B9DF6F;
    assert Crc32.Steps(0xF5, 8) == 0xCDD70693;
    assert Crc32.Steps(0x1A, 8) == 0xFD62F97A;
    assert Crc32.Steps(0x66, 8) == 0xA4D1C46D;
  }

  lemma PhysChecksumEntries3()
    ensures Crc32.TableEntry(0x5C) == 0x62DD1DDF
    ensures Crc32.TableEntry(0xCF) == 0x0BDBDF21
    ensures Crc32.TableEntry(0xB3) == 0x5268E236
    ensures Crc32.TableEntry(0x91) == 0x8708A3D2
  {
    assert Crc32.Steps(0x5C, 8) == 0x62DD1DDF;
    assert Crc32.Steps(0xCF, 8) == 0x0BDBDF21;
    assert Crc32.Steps(0xB3, 8) == 0x5268E236;
    assert Crc32.Steps(0x91, 8) == 0x8708A3D2;
  }

  /** The CRC-32 of the type and data of the `pHYs` chunk for 300 dpi (11811 pixels per metre). */
  lemma PhysChecksum300()
    ensures Crc32.Checksum([0x70, 0x48, 0x59, 0x73, 0x00, 0x00, 0x2E, 0x23, 0x00, 0x00, 0x2E, 0x23, 0x01]) == 0x78A53F76
  {
    PhysChecksumEntries2();
    PhysChecksumEntries3();
    PhysRegisterAfterDensity();
    var d: seq<byte> := [0x70, 0x48, 0x59, 0x73, 0x00, 0x00, 0x2E, 0x23];
    assert Crc32.Index(0x7DFA3166, 0x00) == 0x66;
    Crc32.RegisterSnoc(d, 0x00);
    d := d + [0x00];
    assert Crc32.Register(d) == 0xA4AC3E5C;
    assert Crc32.Index(0xA4AC3E5C, 0x00) == 0x5C;
    Crc32.RegisterSnoc(d, 0x00);
    d := d + [0x00];
    assert Crc32.Register(d) == 0x6279B1E1;
    assert Crc32.Index(0x6279B1E1, 0x2E) == 0xCF;
    Crc32.RegisterSnoc(d, 0x2E);
    d := d + [0x2E];
    assert Crc32.Register(d) == 0x0BB9A690;
    assert Crc32.Index(0x0BB9A690, 0x23) == 0xB3;
    Crc32.RegisterSnoc(d, 0x23);
    d := d + [0x23];
    assert Crc32.Register(d) == 0x52635B90;
    assert Crc32.Index(0x52635B90, 0x01) == 0x91;
    Crc32.RegisterSnoc(d, 0x01);
    d := d + [0x01];
    assert Crc32.Register(d) == 0x875AC089;
    assert d == [0x70, 0x48, 0x59, 0x73, 0x00, 0x00, 0x2E, 0x23, 0x00, 0x00, 0x2E, 0x23, 0x01];
  }

  /** The CRC register after the type and the first density field of the 300 dpi chunk. */
  lemma PhysRegisterAfterDensity()
    ensures Crc32.Register([0x70, 0x48, 0x59, 0x73, 0x00, 0x00, 0x2E, 0x23]) == 0x7DFA3166
  {
    PhysChecksumEntries1();
    PhysChecksumEntries2();
    var d: seq<byte> := [];
    assert Crc32.Index(0xFFFFFFFF, 0x70) == 0x8F;
    Crc32.RegisterSnoc(d, 0x70);
    d := d + [0x70];
    assert Crc32.Register(d) == 0x7DF8614E;
    assert Crc32.Index(0x7DF8614E, 0x48) == 0x06;
    Crc32.RegisterSnoc(d, 0x48);
    d := d + [0x48];
    assert Crc32.Register(d) == 0xE91E5D54;
    assert Crc32.Index(0xE91E5D54, 0x59) == 0x0D;
    Crc32.RegisterSnoc(d, 0x59);
    d := d + [0x59];
    assert Crc32.Register(d) == 0x7E5862E0;
    assert Crc32.Index(0x7E5862E0, 0x73) == 0x93;
    Crc32.RegisterSnoc(d, 0x73);
    d := d + [0x73];
    assert Crc32.Register(d) == 0x69789A9C;
    assert Crc32.Index(0x69789A9C, 0x00) == 0x9C;
    Crc32.RegisterSnoc(d, 0x00);
    d := d + [0x00];
    assert Crc32.Register(d) == 0xF9D0A7F5;
    assert Crc32.Index(0xF9D0A7F5, 0x00) == 0xF5;
    Crc32.RegisterSnoc(d, 0x00);
    d := d + [0x00];
    assert Crc32.Register(d) == 0xCD2ED634;
    assert Crc32.Index(0xCD2ED634, 0x2E) == 0x1A;
    Crc32.RegisterSnoc(d, 0x2E);
    d := d + [0x2E];
    assert Crc32.Register(d) == 0xFDAFD7AC;
    assert Crc32.Index(0xFDAFD7AC, 0x23) == 0x8F;
    Crc32.RegisterSnoc(d, 0x23);
    d := d + [0x23];
    assert Crc32.Register(d) == 0x7DFA3166;
    assert d == [0x70, 0x48, 0x59, 0x73, 0x00, 0x00, 0x2E, 0x23];
  }

  /**
   * The exact 21 bytes injected for 300 dpi: length 9, "pHYs", 11811 (0x2E23)
   * pixels per metre on both axes, unit metre, CRC 0x78A53F76.
   */
  lemma PhysChunkFor300Dpi()
    ensures PhysChunk(Ppm(300)) ==
      [0x00, 0x00, 0x00, 0x09, 0x70, 0x48, 0x59, 0x73, 0x00, 0x00, 0x2E, 0x23,
       0x00, 0x00, 0x2E, 0x23, 0x01, 0x78, 0xA5, 0x3F, 0x76]
  {
    PpmOfCommonDpi();
    PhysChecksum300();
    var density := BigEndian32(ToUint32(11811));
    assert density == [0x00, 0x00, 0x2E, 0x23];
    assert PhysType + density + density + [UnitMetre] == [0x70, 0x48, 0x59, 0x73, 0x00, 0x00, 0x2E, 0x23, 0x00, 0x00, 0x2E, 0x23, 0x01];
    assert Crc32.Unsigned(0x78A53F76) == 0x78A53F76;
  }
}
