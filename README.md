# LSB codec of DataEncoderDecoder, in Dafny

`DataEncoderDecoder` hides a byte payload in the raw bytes of an image. Each
carrier byte holds one bit of the payload in its lowest bit, called its
"bit-slot". The other seven bits stay as they were.

**The frame.** `encode` writes the payload as a frame:
- the payload length comes first, as 4 big-endian bytes (`getBytesFromInt`), in bit-slots 0 to 31;
- the payload follows, from bit-slot 32 on;
- every byte goes in most significant bit first.

**The methods.** `encodeImage` writes one byte sequence into the slots from a given offset. `decodeImage` reads the length and then the payload back.

The project has three modules:

- `JavaInts` (`java_ints.dfy`) models the few facts about Java's `int` and `byte` that the codec relies on:
  - 32-bit wrap-around (`Wrap`);
  - widening a `byte` to an `int` (`SignExtend`);
  - the `(byte)` cast (`Truncate`).
- `DataEncoderDecoder` (`data_encoder_decoder.dfy`) holds the constants, the specification functions and the methods:
  - The methods are `EncodeImage`, `Encode` and `DecodeImage`. They follow the Java loop for loop, on `array<bv8>` carriers. Each inner loop and the single write are methods of their own: `EmbedByte`, `WriteBit`, `ReadLength` and `ReadByte`.
  - Each method's postcondition ties the new carrier and the result to a function on sequences: `EncodeImageEffect`, `EncodeEffect` or `Decode`.
  - A Java exception is a `Failure` value. `Failure` carries `NotLargeEnough`, `IndexOutOfBounds` or `NegativeArraySize`.
  - An `ArrayIndexOutOfBoundsException` in the middle of `encodeImage` leaves behind the writes made before it. The model keeps those writes.
- `CodecProperties` (`codec_properties.dfy`) proves what the codec promises, about those functions:
  - where each bit lands;
  - that the upper bits and everything outside the frame are left alone;
  - when `encodeImage` and `encode` succeed;
  - that `decodeImage` returns what `encode` wrote;
  - what the capacity guard lets through.

**Error behaviour, as the code has it:**
- The header is read into a signed Java `int` (lines 81-86). A header with the first slot's bit set is therefore negative, and `new byte[length]` (line 88) raises `NegativeArraySizeException`. `Decode` returns `Failure(NegativeArraySize)` in that case.
- The capacity guard (line 51) raises `IllegalArgumentException` (line 52), modelled as `NotLargeEnough`.
- A slot beyond the end of the carrier raises `ArrayIndexOutOfBoundsException`, modelled as `IndexOutOfBounds`. `decodeImage` has no check of its own, so every shortage of slots ends this way.
- No payload length is checked. A payload length is a Java array length, so it always fits in an `int`; the model states that as a precondition.

## Model

| member | source | states |
|---|---|---|
| JavaInts.Wrap | DataEncoderDecoder.java:85 | the result is a Java int congruent to the argument modulo 2^32, and equal to it when it already is an int |
| JavaInts.SignExtend | DataEncoderDecoder.java:55 | widening a byte keeps bits 7..0 and fills bits 31..8 with the sign bit |
| JavaInts.Truncate | DataEncoderDecoder.java:58 | the `(byte)` cast keeps exactly bits 7..0 |
| JavaInts.SignExtendLowBits | DataEncoderDecoder.java:55-57 | shifting the widened byte right by `bit < 8` and masking with 1 gives the same bit as on the byte itself |
| DataEncoderDecoder.SetLowBit | DataEncoderDecoder.java:58 | the written byte keeps the upper seven bits of the old one, and its low bit is the payload bit |
| DataEncoderDecoder.GetBytesFromInt | DataEncoderDecoder.java:192-194 | the header is exactly `bytesForTextLengthData` = 4 bytes |
| DataEncoderDecoder.ByteOf | DataEncoderDecoder.java:193 | the header byte for a digit `0 <= d < 256` has unsigned value `d` |
| DataEncoderDecoder.GetBytesFromIntIsBigEndian | DataEncoderDecoder.java:192-194 | the 4 bytes are the big-endian two's-complement encoding of the int: read back as an unsigned number they give the int mod 2^32, and read with `getInt` they give the int itself |
| DataEncoderDecoder.WriteSetsLowBit | DataEncoderDecoder.java:57-58 | the write of line 58, with `b` from line 57, sets the slot to bit `bit` of the payload byte, whatever the sign extensions did |
| DataEncoderDecoder.WriteStep | DataEncoderDecoder.java:56-58 | the write at slot `offset + 8i + (7 - bit)` is write number `8i + (7 - bit)` of the frame, MSB first |
| DataEncoderDecoder.EmbeddedStep | DataEncoderDecoder.java:54-58 | the next write updates only its own slot, with bit `j` of byte `i` of the data |
| DataEncoderDecoder.EmbeddedStops | DataEncoderDecoder.java:56-58 | once a slot is missing (or the offset is negative), no later write happens |
| DataEncoderDecoder.ShiftInSlot | DataEncoderDecoder.java:92 | the update of `result[b]` shifts the byte left and brings in the slot's bit |
| DataEncoderDecoder.ShiftInBitReadsSlot | DataEncoderDecoder.java:84-86 | one Java step on the wrapped value of the first `i` slots gives the wrapped value of the first `i + 1` slots |
| DataEncoderDecoder.GuardRejects | DataEncoderDecoder.java:51 | the guard is evaluated on Java ints; whenever `addition.length + offset` does not overflow it is exactly the comparison `addition.length + offset > image.length` |
| DataEncoderDecoder.ShiftInBit | DataEncoderDecoder.java:85 | one step of the length loop yields a Java int whose lowest bit is the slot's bit, and equals `2 * length + bit` when that does not overflow |
| DataEncoderDecoder.HeaderLength | DataEncoderDecoder.java:81-86 | the length the header loop reads is a Java int, negative exactly when the first slot's bit is set |
| DataEncoderDecoder.SlotsValueFirst | DataEncoderDecoder.java:84-86 | in the slots read as a number, the first slot is worth 2^(n-1) |
| DataEncoderDecoder.EncodeImageEffect | DataEncoderDecoder.java:50-62 | what encodeImage leaves behind: the carrier keeps its length, the call succeeds only when every slot it needs exists, and a guard failure leaves the carrier as it was |
| DataEncoderDecoder.EncodeEffect | DataEncoderDecoder.java:30-44 | what encode leaves behind: the carrier keeps its length, and the call succeeds only when `32 + 8 * compressedData.length <= image.length` |
| DataEncoderDecoder.Decode | DataEncoderDecoder.java:80-96 | what decodeImage returns: a payload of exactly the header's length whose slots lie inside the carrier; `NegativeArraySize` exactly when the carrier has the 32 header slots and the first slot's bit is set |
| DataEncoderDecoder.EncodeImage | DataEncoderDecoder.java:50-62 | new carrier and result as `EncodeImageEffect`: the guard failure leaves the carrier alone; otherwise every existing slot is written, and the call either returns the same array or fails at the first missing slot |
| DataEncoderDecoder.EmbedByte | DataEncoderDecoder.java:56-59 | writes the eight bits of one byte, MSB first, and stops at the first slot that does not exist, reporting whether all eight were written |
| DataEncoderDecoder.WriteBit | DataEncoderDecoder.java:57-58 | one write extends the written prefix of the frame by one slot |
| DataEncoderDecoder.Encode | DataEncoderDecoder.java:30-44 | the header `getBytesFromInt(compressedData.length)` at slot 0, then the payload at slot 32; the first failure ends it; new carrier and outcome as `EncodeEffect` |
| DataEncoderDecoder.DecodeImage | DataEncoderDecoder.java:80-96 | leaves `image` unmodified and returns a fresh array equal to `Decode(image)`, or the same failure as `Decode` |
| DataEncoderDecoder.ReadLength | DataEncoderDecoder.java:81-86 | the length is the first 32 slots read as a big-endian Java int, or `IndexOutOfBounds` on fewer than 32 slots |
| DataEncoderDecoder.ReadByte | DataEncoderDecoder.java:90-93 | `result[b]` becomes the 8 slots from `offset` shifted in, MSB first; the call stops at the end of the carrier; nothing else in `result` changes |
| DataEncoderDecoder.EncodeImageChecked | DataEncoderDecoder.java:50-62 | encodeImage with the guard counting slots: it either rejects up front and writes nothing, or writes the whole addition |
| CodecProperties.EmbedLayout | DataEncoderDecoder.java:54-59 | when the slots fit, slot `offset + 8i + j` holds bit `7 - j` of `addition[i]` |
| CodecProperties.EmbedKeepsUpperBits | DataEncoderDecoder.java:58 | every carrier byte keeps its upper seven bits, and the carrier keeps its length |
| CodecProperties.EmbedOutsideUnchanged | DataEncoderDecoder.java:54-61 | no byte outside `[offset, offset + 8 * addition.length)` changes |
| CodecProperties.EncodeImageOutcome | DataEncoderDecoder.java:51-53 | fails with "not large enough", and leaves the carrier unchanged, iff `addition.length + offset > image.length` in Java ints; succeeds iff the guard passes and every needed slot exists |
| CodecProperties.SlotsByteReadsBack | DataEncoderDecoder.java:90-94 | eight slots that carry a byte MSB first are read back by the inner decode loop as that byte |
| CodecProperties.BitsMakeByte | DataEncoderDecoder.java:92 | a byte's eight bits shifted in MSB first give the byte again |
| CodecProperties.SlotsValueAppendByte | DataEncoderDecoder.java:84-86 | eight more slots that carry a byte append it, as a base-256 digit, to the number read so far |
| CodecProperties.HeaderReadsBack | DataEncoderDecoder.java:84-86 | 32 slots that carry four bytes read back as the bytes' big-endian value |
| CodecProperties.HeaderRoundTrip | DataEncoderDecoder.java:39 | a header written at slot 0 for any Java int, negative ones included, is read back by decodeImage's length loop as that int |
| CodecProperties.EncodeSucceedsIff | DataEncoderDecoder.java:38-44 | encode succeeds iff `32 + 8 * payload length <= image.length`, and then writes exactly the frame |
| CodecProperties.EncodeNonInterference | DataEncoderDecoder.java:38-44 | whatever the outcome, encode keeps the carrier's length and every byte's upper seven bits, and changes no slot after the frame |
| CodecProperties.FramedHeader | DataEncoderDecoder.java:84-88 | in the framed carrier the length loop reads the payload length |
| CodecProperties.FramedPayload | DataEncoderDecoder.java:90-94 | in the framed carrier byte `b` of the result is payload byte `b` |
| CodecProperties.RoundTrip | DataEncoderDecoder.java:80-96 | whenever the frame fits, encode succeeds and decodeImage on the result returns exactly the payload |
| CodecProperties.OneByteHeader | DataEncoderDecoder.java:39 | the header for length 1 on forty zero bytes sets slot 31 only |
| CodecProperties.OneBytePayloadBits | DataEncoderDecoder.java:40 | the byte 0xAB at slot 32 fills slots 32..39 with 1,0,1,0,1,0,1,1 |
| CodecProperties.LengthOneBytes | DataEncoderDecoder.java:192-194 | the header for length 1 is the bytes 0, 0, 0, 1 |
| CodecProperties.OneByteFrame | DataEncoderDecoder.java:38-40 | the whole frame for the payload [0xAB] on forty zero bytes |
| CodecProperties.OneBytePayload | DataEncoderDecoder.java:30-44 | on forty zero bytes, encoding [0xAB] succeeds with that carrier, and decoding it gives [0xAB] |
| CodecProperties.GuardPassesWhenSlotsFit | DataEncoderDecoder.java:51 | when every needed slot exists, the guard does not reject |
| CodecProperties.GuardAdmitsOverrun | DataEncoderDecoder.java:51-59 | two bytes at slot 32 of a 40-byte carrier pass the guard although they need 48 slots; the first byte is written and the call fails with IndexOutOfBounds |
| CodecProperties.EncodeImageCheckedOutcome | DataEncoderDecoder.java:51-53 | the corrected guard never lets the call overrun: it fails, writing nothing, iff a needed slot is missing, and otherwise every byte lands in its slots |
| CodecProperties.EncodeImageCheckedAgrees | DataEncoderDecoder.java:51-53 | for a non-empty addition the corrected and the original call succeed on the same inputs, and then write the same carrier |

## Left out

- `main`, the file and console I/O (`getTextFromTextFile`, `saveDataToPath`, `saveImageToPath`, `getImageFromPath`, `System.out`): I/O with nothing to state about it.
- `compressData` / `decompressData`: they wrap `java.util.zip`, a foreign library. `Encode` takes the compressed payload as a parameter, and the decoded bytes are the end of the model.
- `getBytesFromImage` and the `BufferedImage` / `ImageIO` calls, including the fixed 1000×1000 three-byte image: the carrier is an `array<bv8>` parameter of any length.
- The `catch` blocks of `encode` and `decode`, which only print. `Encode` returns the exception as a `Fail` outcome, and `DecodeImage` returns it as a `Failure`.
- `EncodeImage`, `EncodeImageChecked`, `Encode`: Java's 2^31 - 1 limit on array lengths and `int` offsets is stated as a precondition, not modelled as a failure.
- `DecodeImage`: an `OutOfMemoryError` for a large decoded length is not modelled. Any non-negative length can be allocated.
- `addition` is a `seq<bv8>`. `encodeImage` only reads that array, so aliasing between `image` and `addition` is not modelled.

## Findings

| source | as written | input that shows it | evidently intended | confidence | as-written member | corrected member |
|---|---|---|---|---|---|---|
| DataEncoderDecoder.java:51 | the guard `addition.length + offset > image.length` adds a byte count to a bit-slot offset, so it lets through calls that need up to 8 times more slots than exist | `encodeImage` of 2 bytes at offset 32 on a 40-byte image: the guard passes, 8 slots are written, then slot 40 raises `ArrayIndexOutOfBoundsException` with the carrier already changed | reject the call, before writing, whenever `offset + 8 * addition.length > image.length` (or the offset is negative) | not executed | CodecProperties.GuardAdmitsOverrun | DataEncoderDecoder.EncodeImageChecked |

`Encode` keeps the guard as written, since that is what `encode` calls. Its outcome is the same with either guard:
- The header call (4 bytes at slot 0) and a non-empty payload call at slot 32 behave alike under both guards. `EncodeImageCheckedAgrees` shows both guards pass the same calls, which then write the same carrier.
- An empty payload at slot 32 passes both guards exactly when `32 <= image.length`.
- Whether `encode` passes at all is given by `EncodeSucceedsIff`.
- Only two things differ: the kind of failure, and whether a partial write is made.
