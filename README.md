# PNG density injection, modelled in Dafny

The photo tool in `app.js` can save a PNG with a chosen resolution.
`injectPngDPI` walks the PNG chunks that follow the 8-byte signature and stops at the first
`IDAT` chunk. It builds a 21-byte `pHYs` chunk giving the density in pixels per metre, using
the byte-wise table-driven CRC-32 of `crc32` and `makeCRCTable`. It then returns a copy of
the image with the chunk spliced in at that point.

The project has four modules:

- `Buffers` (`buffers.dfy`): the typed-array primitives the code relies on.
  - `Uint8Array` elements.
  - The big-endian `DataView.getUint32` and `setUint32`, including the ToUint32 wrap-around `setUint32` applies.
  - `TypedArray.set`, which throws when the source does not fit.
- `Crc32` (`crc32.dfy`): `makeCRCTable` and `crc32` as imperative methods over `seq`/`bv32`.
  - Each is proved against a specification: the table entry is eight bit-steps of the reflected polynomial 0xEDB88320, and the register is a recursion over the data.
  - The specification is anchored by the standard check value and the IEND chunk CRC.
- `PngDpi` (`png_dpi.dfy`): `injectPngDPI` as methods.
  - `FindInsertPos` is the chunk-walk loop.
  - `BuildPhysChunk` and `WriteTypeAndData` fill a fresh 21-byte array.
  - `Splice` performs the three `set` calls into the result array.
  - Each is proved equal to a pure specification: `Scan`, `InsertPos`, `PhysChunk` and `Inject`.
  - JavaScript behaviour is modelled explicitly:
    - `getUint32` throws with fewer than 4 bytes left;
    - `bytes[i]` past the end is `undefined`, which `String.fromCharCode` turns into code 0;
    - `result.set(pHYs, insertPos)` throws when the walk overshot the end;
    - `Math.round` rounds halves up.
- `PngDpiProperties` (`png_dpi_properties.dfy`): what a PNG reader sees in the output.
  - The chunk's fields read back through `getUint32`, and its CRC covers its type and data.
  - The insertion point is characterised as the end of a chain of skipped non-`IDAT` chunks.
  - The output's own chunk walk passes over the new `pHYs` and stops at the same `IDAT`, so the `pHYs` precedes the image data.
  - Injecting twice stacks two `pHYs` chunks.
  - Short buffers behave as stated below.
  - Densities for common resolutions are given, with the exact bytes for 300 dpi.

JavaScript's `^` yields a signed 32-bit number and `>>> 0` reinterprets it as unsigned. Both have
the same bit pattern, so the model keeps the CRC register and the table entries as `bv32`. `Crc32.Unsigned` is the
`>>> 0` view as a number.

## Model

| member | source | states |
|---|---|---|
| Buffers.ToUint32 | app.js:389-396 | the value `setUint32` stores is below 2^32, congruent to its argument modulo 2^32, and equal to it when the argument is already in range |
| Buffers.GetUint32 | app.js:380 | the four bytes read most significant first give a value below 2^32; the round trips with `BigEndian32` below pin down the byte order |
| Buffers.BigEndian32 | app.js:389-396 | `setUint32` writes exactly four bytes, most significant first; the round trips with `GetUint32` state that they encode the value |
| Buffers.GetUint32OfBigEndian32 | app.js:380 | reading with `getUint32` the four bytes `setUint32` wrote gives back the value |
| Buffers.BigEndian32OfGetUint32 | app.js:380 | writing back the value `getUint32` read reproduces the same four bytes |
| Buffers.SetUint32 | app.js:389 | `setUint32` writes the big-endian bytes of ToUint32(value) at the offset and leaves every other element unchanged |
| Buffers.SetBytes | app.js:399-401 | `set` succeeds exactly when the source fits at the offset; then the target is the old prefix, the source, and the old suffix; otherwise nothing changes |
| Crc32.Steps | app.js:418 | `k` applications of the bit step (shift right, xor in the polynomial when the bit shifted out was 1); zero stays zero however many steps are taken |
| Crc32.TableEntry | app.js:416-419 | entry `b` is eight bit steps of `b`; entry 0 is 0 (the values of further entries are stated by `TableEntries`) |
| Crc32.Register | app.js:406-410 | the register after feeding the data byte by byte through the table; it starts as all ones (the update per byte is stated by `RegisterSnoc`) |
| Crc32.Checksum | app.js:411 | the CRC-32 is the final register complemented; the CRC of no data is 0 (concrete values are stated by `CheckValue` and `IendChecksum`) |
| Crc32.TableEntries | app.js:414-422 | table entries 0, 1, 128 and 255 have their published CRC-32 values (0, 0x77073096, 0xEDB88320, 0x2D02EF8D) |
| Crc32.MakeCRCTable | app.js:414-422 | the table has 256 entries; entry n is n put through eight shift-and-xor bit steps; entry 0 is 0 |
| Crc32.RegisterSnoc | app.js:409 | feeding one more byte shifts the register right by 8 and xors in the table entry picked by the low byte of register xor data |
| Crc32.Crc32 | app.js:405-412 | the table-driven loop returns the CRC-32 of the data: the final register, starting from all ones, complemented |
| Crc32.CheckValue | app.js:405-412 | the CRC-32 of "123456789" is the standard check value 0xCBF43926 |
| Crc32.IendChecksum | app.js:405-412 | the CRC-32 of "IEND" is 0xAE426082, the CRC closing every PNG file |
| Crc32.Unsigned | app.js:411 | `>>> 0` gives a non-negative number below 2^32 |
| PngDpi.TypeAt | app.js:381 | four characters; when the header lies inside the buffer, exactly bytes 4..7 of the chunk |
| PngDpi.IdatHeaderIsComplete | app.js:381-382 | a chunk that reads as `IDAT` has its whole 8-byte header inside the buffer |
| PngDpi.Scan | app.js:378-384 | the walk never moves backwards; it stops at an `IDAT` whose header is in the buffer, at or past the end, or where fewer than 4 bytes remain for the length |
| PngDpi.ScanStep | app.js:380-383 | with a readable length field, the walk stops at an `IDAT` chunk and otherwise continues 12 + length bytes further on |
| PngDpi.InsertPos | app.js:378-384 | a found insertion point lies between the signature end and the buffer end, and is either the end or an `IDAT` chunk |
| PngDpi.Ppm | app.js:373 | the density is the integer nearest dpi × 39.3701, halves rounded up |
| PngDpi.Inject | app.js:398-402 | success exactly when the walk finds an insertion point, with the walk's error otherwise; the output is 21 bytes longer: input prefix, the `pHYs` chunk, input suffix |
| PngDpi.InjectPngDpi | app.js:372-403 | the method returns exactly `Inject(buffer, dpi)` |
| PngDpi.FindInsertPos | app.js:377-384 | the loop throws exactly when the walk runs into a truncated length field, and otherwise stops where `Scan` does |
| PngDpi.Splice | app.js:398-402 | the three `set` calls give prefix, chunk, suffix when the position is inside the input, and throw at the chunk copy when it is past the end |
| PngDpi.BuildPhysChunk | app.js:386-396 | the fresh 21-byte array holds exactly `PhysChunk(ppm)` |
| PngDpi.WriteTypeAndData | app.js:387-393 | bytes 0..16 are length 9, "pHYs", the density twice, and unit 1; bytes 17..20 keep their old values |
| PngDpi.PhysChunk | app.js:386-396 | the chunk built for a density is 21 bytes long; its fields (length 9, "pHYs", the density twice, unit metre, the CRC of bytes 4..16) are read back by `PhysChunkLayout` |
| PngDpiProperties.PhysChunkLayout | app.js:386-396 | read back with `getUint32`, the chunk gives length 9, type "pHYs", the stored density on both axes, unit metre, and at byte 17 the CRC-32 of bytes 4..16 |
| PngDpiProperties.ScanAlongWalk | app.js:379-384 | the walk's outcome is unchanged along any chain of skipped non-`IDAT` chunks |
| PngDpiProperties.ScanHasWalk | app.js:379-384 | every walk outcome is reached by such a chain of skipped chunks |
| PngDpiProperties.InsertPosIsWalkEnd | app.js:377-384 | `p` is the insertion point if and only if a chain of skipped non-`IDAT` chunks leads from byte 8 to `p`, and `p` is the end of the buffer or an `IDAT` chunk |
| PngDpiProperties.ScanSamePrefix | app.js:379-384 | a walk that stops at `p` reads nothing at or after `p`, so any buffer with the same first `p` bytes walks to `p` as well |
| PngDpiProperties.PhysChunkSkipped | app.js:380-383 | the walk reads the inserted chunk as a non-`IDAT` chunk of length 9 and skips exactly its 21 bytes |
| PngDpiProperties.IdatMovedAlong | app.js:401 | the `IDAT` header the input stopped at is found 21 bytes later in the output |
| PngDpiProperties.InjectedChunkIsWalked | app.js:377-402 | the output's insertion point is 21 bytes after the input's, so a chunk reader meets the `pHYs` before the first `IDAT` |
| PngDpiProperties.InjectTwice | app.js:372-402 | injecting twice puts the second `pHYs` directly after the first; an earlier `pHYs` is never replaced |
| PngDpiProperties.ShortBuffers | app.js:378-401 | the signature is never checked: 8 bytes get the chunk appended, and fewer make the chunk copy throw at position 8 |
| PngDpiProperties.PpmOfCommonDpi | app.js:373 | 72, 96 and 300 dpi give 2835, 3780 and 11811 pixels per metre |
| PngDpiProperties.PpmMonotone | app.js:373 | a higher resolution never gives a lower density |
| PngDpiProperties.DensityReadsBack | app.js:373-392 | for 1 ≤ dpi ≤ 109,000,000 the density is at least 39 and below 2^32, and is read back unchanged from both density fields of the chunk |
| PngDpiProperties.PhysChecksum300 | app.js:395 | the CRC-32 of the 300 dpi chunk's type and data is 0x78A53F76 |
| PngDpiProperties.PhysChunkFor300Dpi | app.js:386-396 | the exact 21 bytes injected for 300 dpi |

## Left out

- Everything in `app.js` outside `injectPngDPI`, `crc32` and `makeCRCTable`: DOM handling, canvas drawing and scaling, the resize and compression loops, PDF export and background removal. They work through browser APIs.
- `changeDPI` only calls `injectPngDPI` with a `parseInt` result of at least 1 (app.js:335). The model accepts any integer because `injectPngDPI` itself does not check. `DensityReadsBack` states the in-range case.
- The `ArrayBuffer`/`Blob` plumbing around the byte buffers: the model takes and returns `seq<byte>`. Aliasing between `view`, `bytes` and `buffer` is irrelevant because nothing writes to the input.
- PngDpi.Ppm: rounds the exact decimal product dpi × 393701 / 10000. The source rounds the binary floating-point product `dpi * 39.3701`. The two can differ only when the exact product lies within floating-point error of a half. For example, 5000 dpi gives exactly 196850.5.
- Crc32.Crc32: the specification is the byte-at-a-time register recursion over a table whose entries are eight bit-steps. The model does not prove that this equals the bit-at-a-time CRC over the whole message (linearity of the bit step over xor). Instead the concrete check values pin it to standard CRC-32.
- The exceptions `injectPngDPI` throws are modelled as `Err` results naming the failing call. No exception objects or messages are modelled.
