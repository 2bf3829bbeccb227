/** The LSB codec of DataEncoderDecoder: a carrier (the raw bytes of an image)
    holds one bit of a frame in the lowest bit of each of its bytes, the
    "bit-slots". The frame is a 4-byte big-endian length followed by the
    payload; every byte is written most significant bit first.

    The methods `EncodeImage`, `Encode` and `DecodeImage` do what the Java
    methods do, loop for loop; each is proved against a function on sequences
    (`EncodeImageEffect`, `EncodeEffect`, `Decode`) that says what the carrier
    and the result are afterwards. Java exceptions are `Failure` values. */
module DataEncoderDecoder {
  import opened JavaInts

  /** Length of the frame header in bytes. */
  const BytesForTextLengthData: nat := 4
  const BitsInByte: nat := 8
  /** Bit-slots taken by the header; the payload starts at this bit-slot. */
  const HeaderSlots: nat := BytesForTextLengthData * BitsInByte

  /** The exceptions the codec can raise. */
  datatype JavaError =
    | NotLargeEnough      // IllegalArgumentException from the capacity guard
    | IndexOutOfBounds    // ArrayIndexOutOfBoundsException
    | NegativeArraySize   // NegativeArraySizeException

  datatype Result<T> = Success(value: T) | Failure(error: JavaError)

  datatype Outcome = Pass | Fail(error: JavaError)

  /** What an encoding call leaves behind: how it ended, and the carrier. */
  datatype Effect = Effect(outcome: Outcome, carrier: seq<bv8>)

  // ---------------------------------------------------------------------
  // Bit-slots

  /** The bit a carrier byte holds in its slot, as the number 0 or 1. */
  function LowBit(x: bv8): nat {
    if x & 1 == 0 then 0 else 1
  }

  /** Bit `j` of `x`, counting from the most significant (j = 0 is bit 7). */
  function BitOf(x: bv8, j: nat): bv8
    requires j < BitsInByte
  {
    (x >> (7 - j)) & 1
  }

  /** `(x & 0xFE) | b`: the carrier byte with its slot set to `b`. */
  function SetLowBit(x: bv8, b: bv8): (r: bv8)
    requires b <= 1
    ensures r & 0xFE == x & 0xFE
    ensures r & 1 == b
  {
    (x & 0xFE) | b
  }

  /** Bit `t` of the bit stream of `data`, bytes in order, each MSB first
      (8 is BitsInByte). */
  function FrameBit(data: seq<bv8>, t: nat): bv8
    requires t < BitsInByte * |data|
  {
    BitOf(data[t / 8], t % 8)
  }

  /** The carrier `c` after encodeImage's first `n` writes: write `t` sets
      the low bit of slot `offset + t` to bit `t` of the frame. A write to a
      slot that does not exist raises in Java, so from then on nothing more
      is written; a negative `offset` writes nothing at all. */
  function Embedded(c: seq<bv8>, data: seq<bv8>, offset: int, n: nat): (r: seq<bv8>)
    requires n <= BitsInByte * |data|
    ensures |r| == |c|
  {
    seq(|c|, k requires 0 <= k < |c| =>
      if 0 <= offset <= k < offset + n then SetLowBit(c[k], FrameBit(data, k - offset)) else c[k])
  }

  /** The carrier `c` after all of `data` was written from bit-slot `offset`,
      as far as the carrier reaches. */
  function Embed(c: seq<bv8>, data: seq<bv8>, offset: int): seq<bv8> {
    Embedded(c, data, offset, BitsInByte * |data|)
  }

  /** 2^n. */
  function Pow2(n: nat): (p: nat)
    ensures p >= 1
  {
    if n == 0 then 1 else 2 * Pow2(n - 1)
  }

  /** The slots `c[s..s+n)`, first slot most significant, as a number. */
  function SlotsValue(c: seq<bv8>, s: nat, n: nat): (v: nat)
    requires s + n <= |c|
    ensures v < Pow2(n)
  {
    if n == 0 then 0 else 2 * SlotsValue(c, s, n - 1) + LowBit(c[s + n - 1])
  }

  /** The slots `c[s..s+n)`, first slot most significant, shifted into a byte. */
  function SlotsByte(c: seq<bv8>, s: nat, n: nat): bv8
    requires s + n <= |c|
  {
    if n == 0 then 0 else (SlotsByte(c, s, n - 1) << 1) | (c[s + n - 1] & 1)
  }

  // ---------------------------------------------------------------------
  // The length header

  /** The four bytes read as an unsigned big-endian number. */
  function UnsignedBigEndian(bs: seq<bv8>): nat
    requires |bs| == BytesForTextLengthData
  {
    ((bs[0] as int * 0x100 + bs[1] as int) * 0x100 + bs[2] as int) * 0x100 + bs[3] as int
  }

  /** ByteBuffer.getInt on four bytes: big-endian, two's complement. */
  function ReadInt(bs: seq<bv8>): int
    requires |bs| == BytesForTextLengthData
  {
    Wrap(UnsignedBigEndian(bs))
  }

  /** `ByteBuffer.allocate(4).putInt(integer).array()`: the bytes of the
      two's-complement pattern of `integer`, most significant first. */
  function GetBytesFromInt(integer: int): (r: seq<bv8>)
    requires IsInt(integer)
    ensures |r| == BytesForTextLengthData
  {
    var u := integer % 0x1_0000_0000;
    [ByteOf(u / 0x100_0000 % 0x100), ByteOf(u / 0x1_0000 % 0x100), ByteOf(u / 0x100 % 0x100), ByteOf(u % 0x100)]
  }

  /** The byte whose unsigned value is `d`. */
  function ByteOf(d: nat): (x: bv8)
    requires d < 0x100
    ensures x as int == d
  {
    if d == 0 then 0 else ByteOf(d - 1) + 1
  }

  /** The header bytes are the big-endian two's-complement encoding of the
      int: read back with ByteBuffer.getInt they give the int again. */
  lemma GetBytesFromIntIsBigEndian(integer: int)
    requires IsInt(integer)
    ensures UnsignedBigEndian(GetBytesFromInt(integer)) == integer % 0x1_0000_0000
    ensures ReadInt(GetBytesFromInt(integer)) == integer
  {
    var u := integer % 0x1_0000_0000;
    DigitsOfWord(u);
    WrapOfResidue(integer);
  }

  /** A 32-bit word is the big-endian number of its four bytes. */
  lemma DigitsOfWord(u: int)
    requires 0 <= u < 0x1_0000_0000
    ensures u / 0x100_0000 % 0x100 == u / 0x100_0000
    ensures ((u / 0x100_0000 * 0x100 + u / 0x1_0000 % 0x100) * 0x100 + u / 0x100 % 0x100) * 0x100 + u % 0x100 == u
  {
    var a := u / 0x100;
    assert u == a * 0x100 + u % 0x100;
    var b := a / 0x100;
    assert u / 0x100 % 0x100 == a % 0x100;
    assert a == b * 0x100 + a % 0x100;
    assert u / 0x1_0000 == b;
    var c := b / 0x100;
    assert b == c * 0x100 + b % 0x100;
    assert u / 0x100_0000 == c;
  }

  /** The two's-complement pattern of a Java int reads back as that int. */
  lemma WrapOfResidue(n: int)
    requires IsInt(n)
    ensures Wrap(n % 0x1_0000_0000) == n
  {
    if n < 0 {
      assert n % 0x1_0000_0000 == n + 0x1_0000_0000;
    }
  }

  /** One step of decodeImage's length loop, `(length << 1) | (x & 0x1)` on
      Java ints: `length << 1` is even, so or-ing in the bit adds it. */
  function ShiftInBit(length: int, x: bv8): (r: int)
    ensures IsInt(r)
    ensures (r - LowBit(x)) % 2 == 0
    ensures IsInt(2 * length + LowBit(x)) ==> r == 2 * length + LowBit(x)
  {
    Wrap(2 * length + LowBit(x))
  }

  /** The length decodeImage reads from the first 32 slots. */
  function HeaderLength(c: seq<bv8>): (r: int)
    requires HeaderSlots <= |c|
    ensures IsInt(r)
    ensures r < 0 <==> LowBit(c[0]) == 1
  {
    SlotsValueFirst(c, 0, HeaderSlots);
    Pow2ThirtyOne();
    Wrap(SlotsValue(c, 0, HeaderSlots))
  }

  // ---------------------------------------------------------------------
  // What the operations do, on values

  /** The capacity guard of encodeImage, `addition.length + offset > image.length`,
      evaluated in Java ints. */
  predicate GuardRejects(additionLength: nat, offset: int, imageLength: nat): (r: bool)
    ensures IsInt(additionLength + offset) ==> (r <==> additionLength + offset > imageLength)
  {
    Wrap(additionLength + offset) > imageLength
  }

  /** Every slot that `additionLength` bytes need from `offset` is in the carrier. */
  predicate SlotsFit(additionLength: nat, offset: int, imageLength: nat) {
    additionLength == 0 || (0 <= offset && offset + BitsInByte * additionLength <= imageLength)
  }

  /** encodeImage(image, addition, offset): the guard may reject the call
      before anything is written; otherwise every slot that exists is written
      and the call fails when a slot is missing. */
  function EncodeImageEffect(c: seq<bv8>, addition: seq<bv8>, offset: int): (r: Effect)
    ensures |r.carrier| == |c|
    ensures r.outcome == Pass ==> SlotsFit(|addition|, offset, |c|)
    ensures r.outcome == Fail(NotLargeEnough) ==> r.carrier == c
  {
    if GuardRejects(|addition|, offset, |c|) then Effect(Fail(NotLargeEnough), c)
    else if SlotsFit(|addition|, offset, |c|) then Effect(Pass, Embed(c, addition, offset))
    else Effect(Fail(IndexOutOfBounds), Embed(c, addition, offset))
  }

  /** The bound the capacity guard evidently means: the `8 * additionLength`
      slots from `offset` on are not all in the carrier. */
  predicate FrameOverruns(additionLength: nat, offset: int, imageLength: nat) {
    offset < 0 || offset + BitsInByte * additionLength > imageLength
  }

  /** encodeImage with the capacity guard corrected to count slots: it
      either rejects the call before writing or writes every slot. */
  function EncodeImageCheckedEffect(c: seq<bv8>, addition: seq<bv8>, offset: int): Effect {
    if FrameOverruns(|addition|, offset, |c|) then Effect(Fail(NotLargeEnough), c)
    else Effect(Pass, Embed(c, addition, offset))
  }

  /** encode: the length header at slot 0, then the payload at slot 32; the
      first failure ends the operation. */
  function EncodeEffect(c: seq<bv8>, compressedData: seq<bv8>): (r: Effect)
    requires |compressedData| <= MaxInt
    ensures |r.carrier| == |c|
    ensures r.outcome == Pass ==> HeaderSlots + BitsInByte * |compressedData| <= |c|
  {
    var header := EncodeImageEffect(c, GetBytesFromInt(|compressedData|), 0);
    if header.outcome.Fail? then header
    else EncodeImageEffect(header.carrier, compressedData, HeaderSlots)
  }

  /** decodeImage: the length from slots [0, 32), then that many bytes from
      the slots that follow. */
  function Decode(c: seq<bv8>): (r: Result<seq<bv8>>)
    ensures r.Success? ==> HeaderSlots + BitsInByte * |r.value| <= |c| && |r.value| == HeaderLength(c)
    ensures r == Failure(NegativeArraySize) <==> HeaderSlots <= |c| && LowBit(c[0]) == 1
  {
    if |c| < HeaderSlots then Failure(IndexOutOfBounds)
    else
      var length := HeaderLength(c);
      if length < 0 then Failure(NegativeArraySize)
      else if HeaderSlots + BitsInByte * length > |c| then Failure(IndexOutOfBounds)
      else Success(seq(length, b requires 0 <= b < length =>
                       SlotsByte(c, HeaderSlots + BitsInByte * b, BitsInByte)))
  }

  // ---------------------------------------------------------------------
  // Lemmas the methods rely on

  /** Write number `n = 8 * i + j` writes bit `j` of byte `i`. */
  lemma EmbeddedStep(c: seq<bv8>, data: seq<bv8>, offset: int, n: nat, i: nat, j: nat, pos: int)
    requires i < |data| && j < BitsInByte && n == BitsInByte * i + j
    requires 0 <= offset && pos == offset + n && pos < |c|
    ensures FrameBit(data, n) == BitOf(data[i], j)
    ensures Embedded(c, data, offset, n + 1)
         == Embedded(c, data, offset, n)[pos := SetLowBit(Embedded(c, data, offset, n)[pos], FrameBit(data, n))]
  {
    assert n / BitsInByte == i && n % BitsInByte == j;
    assert FrameBit(data, n) == BitOf(data[i], j);
  }

  /** encodeImage's write `(byte) ((image[offset] & 0xFE) | b)`, with
      `b = (additionByte >>> bit) & 0x1`, is write number `n` of the frame. */
  lemma WriteStep(c: seq<bv8>, data: seq<bv8>, offset: int, n: nat, i: nat, bit: nat, pos: int, s: seq<bv8>)
    requires i < |data| && bit < BitsInByte && n == BitsInByte * i + (7 - bit)
    requires 0 <= offset && pos == offset + n && pos < |c|
    requires s == Embedded(c, data, offset, n)
    ensures s[pos := Truncate((SignExtend(s[pos]) & 0xFE) | ((SignExtend(data[i]) >> bit) & 1))]
         == Embedded(c, data, offset, n + 1)
  {
    EmbeddedStep(c, data, offset, n, i, 7 - bit, pos);
    WriteSetsLowBit(s[pos], data[i], bit);
  }

  /** Once the next slot is missing, no later write happens either. */
  lemma EmbeddedStops(c: seq<bv8>, data: seq<bv8>, offset: int, n: nat)
    requires n <= BitsInByte * |data|
    requires offset < 0 || offset + n >= |c|
    ensures Embedded(c, data, offset, n) == Embed(c, data, offset)
  {
  }

  /** encodeImage's write `(byte) ((image[offset] & 0xFE) | b)` with
      `b = (additionByte >>> bit) & 0x1` sets the slot to bit `bit` of the
      byte, whatever the sign extensions did. */
  lemma WriteSetsLowBit(slot: bv8, x: bv8, bit: nat)
    requires bit < BitsInByte
    ensures ((SignExtend(x) >> bit) & 1) <= 1
    ensures Truncate((SignExtend(slot) & 0xFE) | ((SignExtend(x) >> bit) & 1))
         == SetLowBit(slot, BitOf(x, 7 - bit))
  {
    SignExtendLowBits(x, bit);
  }

  /** decodeImage's update `(byte) ((result[b] << 1) | (image[offset] & 0x1))`
      is the byte shifted left with the slot's bit coming in. */
  lemma ShiftInSlot(acc: bv8, slot: bv8)
    ensures Truncate((SignExtend(acc) << 1) | (SignExtend(slot) & 1)) == (acc << 1) | (slot & 1)
  {
  }

  /** One step of the length loop reads one more slot; before the last
      step the value is below 2^31, so no step but the last can wrap. */
  lemma ShiftInBitReadsSlot(c: seq<bv8>, i: nat)
    requires i < HeaderSlots && i < |c|
    ensures ShiftInBit(Wrap(SlotsValue(c, 0, i)), c[i]) == Wrap(SlotsValue(c, 0, i + 1))
  {
    Pow2Monotone(i, 31);
    Pow2ThirtyOne();
    assert Wrap(SlotsValue(c, 0, i)) == SlotsValue(c, 0, i);
  }

  /** Read from the front, the first slot is worth 2^(n-1). */
  lemma {:induction false} SlotsValueFirst(c: seq<bv8>, s: nat, n: nat)
    requires 1 <= n && s + n <= |c|
    ensures SlotsValue(c, s, n) == LowBit(c[s]) * Pow2(n - 1) + SlotsValue(c, s + 1, n - 1)
  {
    if n > 1 {
      SlotsValueFirst(c, s, n - 1);
    }
  }

  lemma Pow2ThirtyOne()
    ensures Pow2(31) == 0x8000_0000
  {
    assert Pow2(8) == 0x100;
    assert Pow2(16) == 0x1_0000;
    assert Pow2(24) == 0x100_0000;
  }

  lemma Pow2Monotone(m: nat, n: nat)
    requires m <= n
    ensures Pow2(m) <= Pow2(n)
  {
    if m < n {
      Pow2Monotone(m, n - 1);
    }
  }

  // ---------------------------------------------------------------------
  // The operations

  /** encodeImage: writes `addition` into the slots of `image` from `offset`
      on, and returns `image` itself. */
  method EncodeImage(image: array<bv8>, addition: seq<bv8>, offset: int) returns (r: Result<array<bv8>>)
    requires IsInt(offset) && |addition| <= MaxInt && image.Length <= MaxInt
    modifies image
    ensures image[..] == EncodeImageEffect(old(image[..]), addition, offset).carrier
    ensures r.Success? <==> EncodeImageEffect(old(image[..]), addition, offset).outcome.Pass?
    ensures r.Success? ==> r.value == image
    ensures r.Failure? ==> r.error == EncodeImageEffect(old(image[..]), addition, offset).outcome.error
  {
    if GuardRejects(|addition|, offset, image.Length) {
      return Failure(NotLargeEnough);
    }
    ghost var c := image[..];
    var pos := offset;
    var i := 0;
    while i < |addition|
      invariant 0 <= i <= |addition|
      invariant pos == offset + BitsInByte * i
      invariant i > 0 ==> 0 <= offset && pos <= image.Length
      invariant image[..] == Embedded(c, addition, offset, pos - offset)
    {
      var additionByte := addition[i];
      var written;
      written, pos := EmbedByte(image, c, addition, offset, i, additionByte, pos);
      if !written {
        EmbeddedStops(c, addition, offset, pos - offset);
        return Failure(IndexOutOfBounds);
      }
      i := i + 1;
    }
    return Success(image);
  }

  /** encodeImage with the corrected guard: the call is rejected up front
      when a slot it needs is missing, and otherwise the loops of
      `EncodeImage` run to the end. */
  method EncodeImageChecked(image: array<bv8>, addition: seq<bv8>, offset: int) returns (r: Result<array<bv8>>)
    requires IsInt(offset) && |addition| <= MaxInt && image.Length <= MaxInt
    modifies image
    ensures image[..] == EncodeImageCheckedEffect(old(image[..]), addition, offset).carrier
    ensures r.Success? <==> EncodeImageCheckedEffect(old(image[..]), addition, offset).outcome.Pass?
    ensures r.Success? ==> r.value == image
    ensures r.Failure? ==> r.error == NotLargeEnough
  {
    if FrameOverruns(|addition|, offset, image.Length) {
      return Failure(NotLargeEnough);
    }
    r := EncodeImage(image, addition, offset);
  }

  /** The inner loop of encodeImage: the eight bits of `additionByte`, most
      significant first, into the slots from `pos0` on. It stops early, with
      `written` false, at the first slot that does not exist, where Java
      raises IndexOutOfBounds. */
  method EmbedByte(image: array<bv8>, ghost c: seq<bv8>, addition: seq<bv8>, offset: int, i: nat,
                   additionByte: bv8, pos0: int)
      returns (written: bool, pos: int)
    requires i < |addition| && additionByte == addition[i] && |c| == image.Length
    requires pos0 == offset + BitsInByte * i
    requires i > 0 ==> 0 <= offset && pos0 <= image.Length
    requires image[..] == Embedded(c, addition, offset, pos0 - offset)
    modifies image
    ensures pos0 <= pos <= pos0 + BitsInByte
    ensures written <==> pos == pos0 + BitsInByte
    ensures written ==> 0 <= offset && pos <= image.Length
    ensures !written ==> pos < 0 || pos >= image.Length
    ensures image[..] == Embedded(c, addition, offset, pos - offset)
  {
    pos := pos0;
    var bit := BitsInByte - 1;
    while bit >= 0 && 0 <= pos < image.Length
      invariant -1 <= bit <= 7 && pos == pos0 + (7 - bit)
      invariant (i > 0 || bit < 7) ==> 0 <= offset && pos <= image.Length
      invariant image[..] == Embedded(c, addition, offset, pos - offset)
    {
      WriteBit(image, c, addition, offset, i, additionByte, bit, pos);
      bit, pos := bit - 1, pos + 1;
    }
    written := bit < 0;
  }

  /** One step of the inner loop: `image[offset] = (byte) ((image[offset] &
      0xFE) | b)` with `b = (additionByte >>> bit) & 0x1`, the byte widened
      to an int first. */
  method WriteBit(image: array<bv8>, ghost c: seq<bv8>, addition: seq<bv8>, offset: int, i: nat,
                  additionByte: bv8, bit: nat, pos: int)
    requires i < |addition| && additionByte == addition[i] && bit < BitsInByte
    requires 0 <= offset && pos == offset + BitsInByte * i + (7 - bit) && pos < image.Length == |c|
    requires image[..] == Embedded(c, addition, offset, pos - offset)
    modifies image
    ensures image[..] == Embedded(c, addition, offset, pos + 1 - offset)
  {
    var b := (SignExtend(additionByte) >> bit) & 1;
    WriteStep(c, addition, offset, pos - offset, i, bit, pos, image[..]);
    image[pos] := Truncate((SignExtend(image[pos]) & 0xFE) | b);
  }

  /** The header-then-payload sequence of encode: the 4-byte length of the
      compressed payload at bit-slot 0, then the payload at bit-slot 32; an
      exception from either call ends it. */
  method Encode(image: array<bv8>, compressedData: seq<bv8>) returns (o: Outcome)
    requires |compressedData| <= MaxInt && image.Length <= MaxInt
    modifies image
    ensures image[..] == EncodeEffect(old(image[..]), compressedData).carrier
    ensures o == EncodeEffect(old(image[..]), compressedData).outcome
  {
    var textLengthInBytes := GetBytesFromInt(|compressedData|);
    var r := EncodeImage(image, textLengthInBytes, 0);
    if r.Failure? {
      return Fail(r.error);
    }
    r := EncodeImage(image, compressedData, BytesForTextLengthData * BitsInByte);
    if r.Failure? {
      return Fail(r.error);
    }
    return Pass;
  }

  /** decodeImage: reads the length from the first 32 slots, then fills a new
      array of that many bytes from the slots after them; `image` is only read. */
  method DecodeImage(image: array<bv8>) returns (r: Result<array<bv8>>)
    ensures r.Success? ==> fresh(r.value) && Decode(image[..]) == Success(r.value[..])
    ensures r.Failure? ==> Decode(image[..]) == Failure(r.error)
  {
    var header := ReadLength(image);
    if header.Failure? {
      return Failure(header.error);
    }
    var length := header.value;
    var offset := BytesForTextLengthData * BitsInByte;
    if length < 0 {
      return Failure(NegativeArraySize);
    }
    var result := new bv8[length](_ => 0);
    var b := 0;
    while b < result.Length
      invariant 0 <= b <= result.Length
      invariant offset == HeaderSlots + BitsInByte * b <= image.Length
      invariant forall k | 0 <= k < b :: result[k] == SlotsByte(image[..], HeaderSlots + BitsInByte * k, BitsInByte)
      invariant forall k | b <= k < result.Length :: result[k] == 0
    {
      var read;
      read, offset := ReadByte(image, result, b, offset);
      if !read {
        return Failure(IndexOutOfBounds);
      }
      b := b + 1;
    }
    ghost var c := image[..];
    assert result[..] == seq(length, k requires 0 <= k < length =>
                             SlotsByte(c, HeaderSlots + BitsInByte * k, BitsInByte));
    return Success(result);
  }

  /** The length loop of decodeImage: the first 32 slots shifted into an
      int, which fails when the carrier has fewer slots. */
  method ReadLength(image: array<bv8>) returns (r: Result<int>)
    ensures r == if image.Length < HeaderSlots then Failure(IndexOutOfBounds)
                 else Success(HeaderLength(image[..]))
  {
    var length := 0;
    var offset := BytesForTextLengthData * BitsInByte;
    var i := 0;
    while i < offset
      invariant 0 <= i <= HeaderSlots && i <= image.Length
      invariant length == Wrap(SlotsValue(image[..], 0, i))
    {
      if i >= image.Length {
        return Failure(IndexOutOfBounds);
      }
      ShiftInBitReadsSlot(image[..], i);
      length := ShiftInBit(length, image[i]);
      i := i + 1;
    }
    return Success(length);
  }

  /** The inner loop of decodeImage: the eight slots from `offset0` shifted
      into `result[b]`, which starts at 0. It stops early, with `read` false,
      at the first slot that does not exist, where Java raises
      IndexOutOfBounds. */
  method ReadByte(image: array<bv8>, result: array<bv8>, b: nat, offset0: int) returns (read: bool, offset: int)
    requires result != image && b < result.Length && result[b] == 0
    requires 0 <= offset0 <= image.Length
    modifies result
    ensures offset0 <= offset <= offset0 + BitsInByte && offset <= image.Length
    ensures read <==> offset == offset0 + BitsInByte
    ensures !read ==> offset == image.Length
    ensures result[..] == old(result[..])[b := SlotsByte(image[..], offset0, offset - offset0)]
  {
    offset := offset0;
    var i := 0;
    while i < BitsInByte
      invariant 0 <= i <= BitsInByte && offset == offset0 + i <= image.Length
      invariant result[..] == old(result[..])[b := SlotsByte(image[..], offset0, i)]
    {
      if offset >= image.Length {
        return false, offset;
      }
      ShiftInSlot(result[b], image[offset]);
      result[b] := Truncate((SignExtend(result[b]) << 1) | (SignExtend(image[offset]) & 1));
      i, offset := i + 1, offset + 1;
    }
    return true, offset;
  }
}
