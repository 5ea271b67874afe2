/**
 * The CRC-32 that guards every PNG chunk: reflected polynomial 0xEDB88320,
 * register preset to all ones, final register complemented, computed a byte
 * at a time through a 256-entry lookup table (Portable Network Graphics
 * Specification, Second Edition, section 5.5 and Annex D).
 *
 * JavaScript keeps the register in a number: `^` yields a signed 32-bit
 * integer and `>>> 0` reinterprets it as unsigned. Both have the bit pattern
 * of the `bv32` values used here, so the table entries app.js stores as
 * negative numbers are the same 32 bits as the entries below.
 */
module Crc32 {
  import opened Buffers

  /** The reflected CRC-32 generator polynomial. */
  const Polynomial: bv32 := 0xEDB8_8320

  /** One bit of register update: shift right, xor in the polynomial when the bit shifted out was set. */
  function Step(c: bv32): bv32
  {
    if c & 1 == 1 then Polynomial ^ (c >> 1) else c >> 1
  }

  /** `k` bit steps applied to `c`. */
  function Steps(c: bv32, k: nat): (r: bv32)
    ensures c == 0 ==> r == 0
  {
    if k == 0 then c else Step(Steps(c, k - 1))
  }

  /** Lookup-table entry for byte value `b`: `b` put through eight bit steps. */
  function TableEntry(b: bv8): (r: bv32)
    ensures b == 0 ==> r == 0
  {
    Steps(b as bv32, 8)
  }

  /** The table slot a byte selects: the low byte of register xor data byte. */
  function Index(reg: bv32, b: byte): bv8
  {
    ((reg ^ (b as bv32)) & 0xFF) as bv8
  }

  /** The register after feeding `data`, starting from all ones. */
  function Register(data: seq<byte>): (r: bv32)
    ensures data == [] ==> r == 0xFFFF_FFFF
  {
    if data == [] then 0xFFFF_FFFF
    else
      var reg := Register(data[..|data| - 1]);
      (reg >> 8) ^ TableEntry(Index(reg, data[|data| - 1]))
  }

  /** A 32-bit word as the non-negative number JavaScript's `>>> 0` gives. */
  function Unsigned(x: bv32): (r: nat)
    ensures r < Two32
  {
    x as int
  }

  /** The CRC-32 of `data`: the final register, complemented. */
  function Checksum(data: seq<byte>): (r: bv32)
    ensures data == [] ==> r == 0
  {
    Register(data) ^ 0xFFFF_FFFF
  }

  /** A zero register stays zero however many bit steps it takes. */
  lemma {:induction false} StepsOfZero(k: nat)
    ensures Steps(0, k) == 0
  {
    if k > 0 {
      StepsOfZero(k - 1);
    }
  }

  /** Entries of the published CRC-32 table (Annex D) that pin down the polynomial and the bit order. */
  lemma TableEntries()
    ensures TableEntry(0) == 0
    ensures TableEntry(1) == 0x7707_3096
    ensures TableEntry(0x80) == Polynomial
    ensures TableEntry(0xFF) == 0x2D02_EF8D
  {
    StepsOfZero(8);
    assert Steps(1, 8) == 0x7707_3096;
    assert Steps(0x80, 8) == Polynomial;
    assert Steps(0xFF, 8) == 0x2D02_EF8D;
  }

  /** Feeding one more byte updates the register through the table. */
  lemma RegisterSnoc(d: seq<byte>, b: byte)
    ensures Register(d + [b]) == (Register(d) >> 8) ^ TableEntry(Index(Register(d), b))
  {
    assert (d + [b])[..|d|] == d;
  }

  lemma CheckValueEntries1()
    ensures TableEntry(0xCE) == 0x7CDCEFB7
    ensures TableEntry(0x7A) == 0xB0D09822
    ensures TableEntry(0x01) == 0x77073096
  {
    assert Steps(0xCE, 8) == 0x7CDCEFB7;
    assert Steps(0x7A, 8) == 0xB0D09822;
    assert Steps(0x01, 8) == 0x77073096;
  }

  lemma CheckValueEntries2()
    ensures TableEntry(0x19) == 0x646BA8C0
    ensures TableEntry(0x69) == 0x346ED9FC
    ensures TableEntry(0xD5) == 0xF6B9265B
  {
    assert Steps(0x19, 8) == 0x646BA8C0;
    assert Steps(0x69, 8) == 0x346ED9FC;
    assert Steps(0xD5, 8) == 0xF6B9265B;
  }

  lemma CheckValueEntries3()
    ensures TableEntry(0xA9) == 0xAF0A1B4C
    ensures TableEntry(0x58) == 0x65B0D9C6
    ensures TableEntry(0x69) == 0x346ED9FC
  {
    assert Steps(0xA9, 8) == 0xAF0A1B4C;
    assert Steps(0x58, 8) == 0x65B0D9C6;
    assert Steps(0x69, 8) == 0x346ED9FC;
  }

  /** The standard CRC-32 check value: the CRC of the ASCII digits "123456789" is 0xCBF43926. */
  lemma CheckValue()
    ensures Checksum([0x31, 0x32, 0x33, 0x34, 0x35, 0x36, 0x37, 0x38, 0x39]) == 0xCBF43926
  {
    CheckValueEntries1();
    CheckValueEntries2();
    CheckValueEntries3();
    var d: seq<byte> := [];
    assert Index(0xFFFFFFFF, 0x31) == 0xCE;
    RegisterSnoc(d, 0x31);
    d := d + [0x31];
    assert Register(d) == 0x7C231048;
    assert Index(0x7C231048, 0x32) == 0x7A;
    RegisterSnoc(d, 0x32);
    d := d + [0x32];
    assert Register(d) == 0xB0ACBB32;
    assert Index(0xB0ACBB32, 0x33) == 0x01;
    RegisterSnoc(d, 0x33);
    d := d + [0x33];
    assert Register(d) == 0x77B79C2D;
    assert Index(0x77B79C2D, 0x34) == 0x19;
    RegisterSnoc(d, 0x34);
    d := d + [0x34];
    assert Register(d) == 0x641C1F5C;
    assert Index(0x641C1F5C, 0x35) == 0x69;
    RegisterSnoc(d, 0x35);
    d := d + [0x35];
    assert Register(d) == 0x340AC5E3;
    assert Index(0x340AC5E3, 0x36) == 0xD5;
    RegisterSnoc(d, 0x36);
    d := d + [0x36];
    assert Register(d) == 0xF68D2C9E;
    assert Index(0xF68D2C9E, 0x37) == 0xA9;
    RegisterSnoc(d, 0x37);
    d := d + [0x37];
    assert Register(d) == 0xAFFC9660;
    assert Index(0xAFFC9660, 0x38) == 0x58;
    RegisterSnoc(d, 0x38);
    d := d + [0x38];
    assert Register(d) == 0x651F2550;
    assert Index(0x651F2550, 0x39) == 0x69;
    RegisterSnoc(d, 0x39);
    d := d + [0x39];
    assert Register(d) == 0x340BC6D9;
    assert d == [0x31, 0x32, 0x33, 0x34, 0x35, 0x36, 0x37, 0x38, 0x39];
  }

  lemma IendChecksumEntries()
    ensures TableEntry(0xB6) == 0x220216B9
    ensures TableEntry(0x03) == 0x990951BA
    ensures TableEntry(0x1D) == 0x63066CD9
    ensures TableEntry(0x31) == 0x51DE003A
  {
    assert Steps(0xB6, 8) == 0x220216B9;
    assert Steps(0x03, 8) == 0x990951BA;
    assert Steps(0x1D, 8) == 0x63066CD9;
    assert Steps(0x31, 8) == 0x51DE003A;
  }

  /** The CRC that closes every PNG file: that of the IEND chunk type with no data. */
  lemma IendChecksum()
    ensures Checksum([0x49, 0x45, 0x4E, 0x44]) == 0xAE426082
  {
    IendChecksumEntries();
    var d: seq<byte> := [];
    assert Index(0xFFFFFFFF, 0x49) == 0xB6;
    RegisterSnoc(d, 0x49);
    d := d + [0x49];
    assert Register(d) == 0x22FDE946;
    assert Index(0x22FDE946, 0x45) == 0x03;
    RegisterSnoc(d, 0x45);
    d := d + [0x45];
    assert Register(d) == 0x992BAC53;
    assert Index(0x992BAC53, 0x4E) == 0x1D;
    RegisterSnoc(d, 0x4E);
    d := d + [0x4E];
    assert Register(d) == 0x639F4775;
    assert Index(0x639F4775, 0x44) == 0x31;
    RegisterSnoc(d, 0x44);
    d := d + [0x44];
    assert Register(d) == 0x51BD9F7D;
    assert d == [0x49, 0x45, 0x4E, 0x44];
  }

  lemma ByteAsInt(b: bv8)
    ensures (b as int) as bv8 == b
  {
  }

  /** makeCRCTable: 256 entries, entry `n` is `n` put through eight bit steps. */
  method MakeCRCTable() returns (t: seq<bv32>)
    ensures |t| == 256
    ensures forall n :: 0 <= n < 256 ==> t[n] == TableEntry(n as bv8)
    ensures forall b: bv8 :: t[b as int] == TableEntry(b)
    ensures t[0] == 0
  {
    t := [];
    for n := 0 to 256
      invariant |t| == n
      invariant forall j :: 0 <= j < n ==> t[j] == TableEntry(j as bv8)
    {
      var c: bv32 := n as bv32;
      for k := 0 to 8
        invariant c == Steps(n as bv32, k)
      {
        c := if c & 1 == 1 then Polynomial ^ (c >> 1) else c >> 1;
      }
      assert (n as bv8) as bv32 == n as bv32;
      t := t + [c];
    }
    forall b: bv8 ensures t[b as int] == TableEntry(b) {
      ByteAsInt(b);
    }
    TableEntries();
  }

  /** One pass of the crc32 loop extends the register by one byte. */
  lemma RegisterStep(data: seq<byte>, i: nat, reg: bv32, table: seq<bv32>)
    requires i < |data| && |table| == 256
    requires forall b: bv8 :: table[b as int] == TableEntry(b)
    requires reg == Register(data[..i])
    ensures Register(data[..i + 1]) == (reg >> 8) ^ table[Index(reg, data[i]) as int]
  {
    assert data[..i + 1][..i] == data[..i];
  }

  lemma Complement(reg: bv32, data: seq<byte>)
    requires reg == Register(data)
    ensures reg ^ 0xFFFF_FFFF == Checksum(data)
  {
  }

  /** crc32: the table-driven loop over `data` computes the CRC-32 of `data`. */
  method Crc32(data: seq<byte>) returns (r: bv32)
    ensures r == Checksum(data)
  {
    var crc: bv32 := 0xFFFF_FFFF;
    var table := MakeCRCTable();
    for i := 0 to |data|
      invariant crc == Register(data[..i])
    {
      RegisterStep(data, i, crc, table);
      crc := (crc >> 8) ^ table[((crc ^ (data[i] as bv32)) & 0xFF) as bv8 as int];
    }
    assert data[..|data|] == data;
    Complement(crc, data);
    r := crc ^ 0xFFFF_FFFF;
  }
}
