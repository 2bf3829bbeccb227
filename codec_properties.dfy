/** What the codec promises, proved about the functions that specify
    encodeImage, encode and decodeImage: where each bit lands, what is left
    alone, when encoding succeeds, and that decoding undoes encoding. */
module CodecProperties {
  import opened JavaInts
  import opened DataEncoderDecoder

  /** The slots `c[s..s+8)` hold the bits of `x`, most significant first. */
  ghost predicate CarriesByte(c: seq<bv8>, s: nat, x: bv8)
    requires s + BitsInByte <= |c|
  {
    forall j | 0 <= j < BitsInByte :: c[s + j] & 1 == BitOf(x, j)
  }

  // ---------------------------------------------------------------------
  // Layout of one encodeImage call

  /** Byte `i` of `data` lands in slots `offset + 8i .. offset + 8i + 8`,
      bit 7 first: the slot `offset + 8i + j` holds bit `7 - j` of it. */
  lemma EmbedLayout(c: seq<bv8>, data: seq<bv8>, offset: nat, i: nat)
    requires offset + BitsInByte * |data| <= |c| && i < |data|
    ensures offset + BitsInByte * i + BitsInByte <= |c|
    ensures CarriesByte(Embed(c, data, offset), offset + BitsInByte * i, data[i])
  {
    forall j | 0 <= j < BitsInByte
      ensures Embed(c, data, offset)[offset + BitsInByte * i + j] & 1 == BitOf(data[i], j)
    {
      var t := BitsInByte * i + j;
      assert t / BitsInByte == i && t % BitsInByte == j;
    }
  }

  /** Every carrier byte keeps its upper seven bits; the length stays. */
  lemma EmbedKeepsUpperBits(c: seq<bv8>, data: seq<bv8>, offset: int)
    ensures |Embed(c, data, offset)| == |c|
    ensures forall k | 0 <= k < |c| :: Embed(c, data, offset)[k] & 0xFE == c[k] & 0xFE
  {
  }

  /** Only the slots `[offset, offset + 8 * |data|)` can change. */
  lemma EmbedOutsideUnchanged(c: seq<bv8>, data: seq<bv8>, offset: int)
    ensures forall k | 0 <= k < |c| && !(offset <= k < offset + BitsInByte * |data|) ::
              Embed(c, data, offset)[k] == c[k]
  {
  }

  /** encodeImage raises "not large enough", and writes nothing, exactly when
      `addition.length + offset > image.length` in Java ints; when it passes
      the guard it succeeds exactly when every slot it needs exists. */
  lemma EncodeImageOutcome(c: seq<bv8>, addition: seq<bv8>, offset: int)
    ensures EncodeImageEffect(c, addition, offset).outcome == Fail(NotLargeEnough)
        <==> Wrap(|addition| + offset) > |c|
    ensures Wrap(|addition| + offset) > |c| ==> EncodeImageEffect(c, addition, offset).carrier == c
    ensures EncodeImageEffect(c, addition, offset).outcome == Pass
        <==> !GuardRejects(|addition|, offset, |c|) && SlotsFit(|addition|, offset, |c|)
  {
  }

  // ---------------------------------------------------------------------
  // Reading slots back

  /** A byte is its eight bits shifted in, most significant first. */
  lemma BitsMakeByte(x: bv8)
    ensures ((((((((((((((BitOf(x, 0) << 1) | BitOf(x, 1)) << 1) | BitOf(x, 2)) << 1) | BitOf(x, 3)) << 1)
             | BitOf(x, 4)) << 1) | BitOf(x, 5)) << 1) | BitOf(x, 6)) << 1) | BitOf(x, 7)) == x
  {
  }

  /** decodeImage's inner loop rebuilds a byte from the eight slots that carry it. */
  lemma SlotsByteReadsBack(c: seq<bv8>, s: nat, x: bv8)
    requires s + BitsInByte <= |c|
    requires CarriesByte(c, s, x)
    ensures SlotsByte(c, s, BitsInByte) == x
  {
    forall n | 1 <= n <= BitsInByte
      ensures SlotsByte(c, s, n) == (SlotsByte(c, s, n - 1) << 1) | BitOf(x, n - 1)
    {
      assert c[s + n - 1] & 1 == BitOf(x, n - 1);
    }
    assert SlotsByte(c, s, 0) == 0;
    BitsMakeByte(x);
  }

  /** A byte is the sum of its bits, each at its place value. */
  lemma BitsSumToByte(x: bv8)
    ensures x as int == 0x80 * LowBit(BitOf(x, 0)) + 0x40 * LowBit(BitOf(x, 1)) + 0x20 * LowBit(BitOf(x, 2))
                      + 0x10 * LowBit(BitOf(x, 3)) + 0x08 * LowBit(BitOf(x, 4)) + 0x04 * LowBit(BitOf(x, 5))
                      + 0x02 * LowBit(BitOf(x, 6)) + LowBit(BitOf(x, 7))
  {
  }

  /** Eight more slots shift the number read so far up by a byte and add
      their low bits, first slot most significant. */
  lemma SlotsValueEight(c: seq<bv8>, m: nat)
    requires m + BitsInByte <= |c|
    ensures SlotsValue(c, 0, m + BitsInByte)
         == 0x100 * SlotsValue(c, 0, m)
          + 0x80 * LowBit(c[m]) + 0x40 * LowBit(c[m + 1]) + 0x20 * LowBit(c[m + 2]) + 0x10 * LowBit(c[m + 3])
          + 0x08 * LowBit(c[m + 4]) + 0x04 * LowBit(c[m + 5]) + 0x02 * LowBit(c[m + 6]) + LowBit(c[m + 7])
  {
    assert SlotsValue(c, 0, m + 1) == 2 * SlotsValue(c, 0, m) + LowBit(c[m]);
    assert SlotsValue(c, 0, m + 2) == 2 * SlotsValue(c, 0, m + 1) + LowBit(c[m + 1]);
    assert SlotsValue(c, 0, m + 3) == 2 * SlotsValue(c, 0, m + 2) + LowBit(c[m + 2]);
    assert SlotsValue(c, 0, m + 4) == 2 * SlotsValue(c, 0, m + 3) + LowBit(c[m + 3]);
    assert SlotsValue(c, 0, m + 5) == 2 * SlotsValue(c, 0, m + 4) + LowBit(c[m + 4]);
    assert SlotsValue(c, 0, m + 6) == 2 * SlotsValue(c, 0, m + 5) + LowBit(c[m + 5]);
    assert SlotsValue(c, 0, m + 7) == 2 * SlotsValue(c, 0, m + 6) + LowBit(c[m + 6]);
    assert SlotsValue(c, 0, m + 8) == 2 * SlotsValue(c, 0, m + 7) + LowBit(c[m + 7]);
  }

  /** Eight more slots that carry `x` append `x` to the number read so far. */
  lemma SlotsValueAppendByte(c: seq<bv8>, m: nat, x: bv8)
    requires m + BitsInByte <= |c|
    requires CarriesByte(c, m, x)
    ensures SlotsValue(c, 0, m + BitsInByte) == 0x100 * SlotsValue(c, 0, m) + x as int
  {
    SlotsValueEight(c, m);
    BitsSumToByte(x);
    forall j | 0 <= j < BitsInByte
      ensures LowBit(c[m + j]) == LowBit(BitOf(x, j))
    {
      assert c[m + j] & 1 == BitOf(x, j);
    }
  }

  /** Slots [0, 32) that carry four bytes read back as their big-endian value. */
  lemma HeaderReadsBack(c: seq<bv8>, h: seq<bv8>)
    requires |h| == BytesForTextLengthData && HeaderSlots <= |c|
    requires forall k | 0 <= k < BytesForTextLengthData :: CarriesByte(c, BitsInByte * k, h[k])
    ensures SlotsValue(c, 0, HeaderSlots) == UnsignedBigEndian(h)
  {
    var v1 := SlotsValue(c, 0, 8);
    var v2 := SlotsValue(c, 0, 16);
    var v3 := SlotsValue(c, 0, 24);
    assert v1 == h[0] as int by { SlotsValueAppendByte(c, 0, h[0]); }
    assert v2 == 0x100 * v1 + h[1] as int by { SlotsValueAppendByte(c, 8, h[1]); }
    assert v3 == 0x100 * v2 + h[2] as int by { SlotsValueAppendByte(c, 16, h[2]); }
    SlotsValueAppendByte(c, 24, h[3]);
  }

  /** A length header written at slot 0 is read back by decodeImage as the
      same Java int, negative values included. */
  lemma HeaderRoundTrip(c: seq<bv8>, n: int)
    requires IsInt(n) && HeaderSlots <= |c|
    ensures HeaderLength(Embed(c, GetBytesFromInt(n), 0)) == n
  {
    var h := GetBytesFromInt(n);
    GetBytesFromIntIsBigEndian(n);
    forall k | 0 <= k < BytesForTextLengthData
      ensures CarriesByte(Embed(c, h, 0), BitsInByte * k, h[k])
    {
      EmbedLayout(c, h, 0, k);
    }
    HeaderReadsBack(Embed(c, h, 0), h);
  }

  // ---------------------------------------------------------------------
  // encode, then decodeImage

  /** encode succeeds exactly when the whole frame, 32 slots of header and
      8 per payload byte, fits in the carrier; it then writes the header at
      slot 0 and the payload at slot 32. */
  lemma EncodeSucceedsIff(c: seq<bv8>, p: seq<bv8>)
    requires |p| <= MaxInt && |c| <= MaxInt
    ensures EncodeEffect(c, p).outcome == Pass <==> HeaderSlots + BitsInByte * |p| <= |c|
    ensures EncodeEffect(c, p).outcome == Pass ==>
              EncodeEffect(c, p).carrier == Framed(c, p)
  {
    var h := GetBytesFromInt(|p|);
    if HeaderSlots <= |c| {
      assert !GuardRejects(|h|, 0, |c|) && SlotsFit(|h|, 0, |c|);
      if HeaderSlots + BitsInByte * |p| <= |c| {
        assert !GuardRejects(|p|, HeaderSlots, |c|);
      }
    }
  }

  /** Whatever happens, encode keeps the carrier's length and every byte's
      upper seven bits, and leaves every slot after the frame alone. */
  lemma EncodeNonInterference(c: seq<bv8>, p: seq<bv8>)
    requires |p| <= MaxInt
    ensures |EncodeEffect(c, p).carrier| == |c|
    ensures forall k | 0 <= k < |c| :: EncodeEffect(c, p).carrier[k] & 0xFE == c[k] & 0xFE
    ensures forall k | HeaderSlots + BitsInByte * |p| <= k < |c| :: EncodeEffect(c, p).carrier[k] == c[k]
  {
    var h := GetBytesFromInt(|p|);
    var c1 := Embed(c, h, 0);
    var c2 := Embed(c1, p, HeaderSlots);
    assert EncodeEffect(c, p).carrier in {c, c1, c2};
    EmbedKeepsUpperBits(c, h, 0);
    EmbedOutsideUnchanged(c, h, 0);
    EmbedKeepsUpperBits(c1, p, HeaderSlots);
    EmbedOutsideUnchanged(c1, p, HeaderSlots);
  }

  /** The frame encode writes when it fits: the header bytes at slot 0,
      then the payload at slot 32. */
  function Framed(c: seq<bv8>, p: seq<bv8>): seq<bv8>
    requires |p| <= MaxInt
  {
    Embed(Embed(c, GetBytesFromInt(|p|), 0), p, HeaderSlots)
  }

  /** In the framed carrier the first 32 slots hold the payload's length. */
  lemma FramedHeader(c: seq<bv8>, p: seq<bv8>)
    requires HeaderSlots + BitsInByte * |p| <= |c| <= MaxInt
    ensures HeaderLength(Framed(c, p)) == |p|
  {
    var h := GetBytesFromInt(|p|);
    GetBytesFromIntIsBigEndian(|p|);
    assert SlotsValue(Framed(c, p), 0, HeaderSlots) == UnsignedBigEndian(h) by {
      EmbedOutsideUnchanged(Embed(c, h, 0), p, HeaderSlots);
      forall k | 0 <= k < BytesForTextLengthData
        ensures CarriesByte(Framed(c, p), BitsInByte * k, h[k])
      {
        EmbedLayout(c, h, 0, k);
      }
      HeaderReadsBack(Framed(c, p), h);
    }
  }

  /** In the framed carrier byte `b` of the payload is read back from slots
      32 + 8b .. 32 + 8b + 8. */
  lemma FramedPayload(c: seq<bv8>, p: seq<bv8>, b: nat)
    requires HeaderSlots + BitsInByte * |p| <= |c| <= MaxInt && b < |p|
    ensures SlotsByte(Framed(c, p), HeaderSlots + BitsInByte * b, BitsInByte) == p[b]
  {
    var c1 := Embed(c, GetBytesFromInt(|p|), 0);
    EmbedLayout(c1, p, HeaderSlots, b);
    SlotsByteReadsBack(Framed(c, p), HeaderSlots + BitsInByte * b, p[b]);
  }

  /** decodeImage returns the payload that encode wrote, whenever the frame
      fits in the carrier (an empty payload needs only the 32 header slots). */
  lemma RoundTrip(c: seq<bv8>, p: seq<bv8>)
    requires HeaderSlots + BitsInByte * |p| <= |c| <= MaxInt
    ensures EncodeEffect(c, p) == Effect(Pass, Framed(c, p))
    ensures Decode(EncodeEffect(c, p).carrier) == Success(p)
  {
    EncodeSucceedsIff(c, p);
    var f := Framed(c, p);
    FramedHeader(c, p);
    var bytes := seq(|p|, b requires 0 <= b < |p| => SlotsByte(f, HeaderSlots + BitsInByte * b, BitsInByte));
    forall b | 0 <= b < |p|
      ensures bytes[b] == p[b]
    {
      FramedPayload(c, p, b);
    }
    assert bytes == p;
  }

  /** The length header 1 on forty zero bytes sets slot 31 only. */
  lemma OneByteHeader(c: seq<bv8>)
    requires |c| == 40 && forall k | 0 <= k < |c| :: c[k] == 0
    ensures Embed(c, [0, 0, 0, 1], 0) == c[..31] + [1] + c[32..]
  {
    var h: seq<bv8> := [0, 0, 0, 1];
    var header := c[..31] + [1] + c[32..];
    forall k | 0 <= k < 40
      ensures Embed(c, h, 0)[k] == header[k]
    {
      if k < 24 {
        assert h[k / BitsInByte] == 0;
      } else if k < 32 {
        assert k / BitsInByte == 3;
      }
    }
  }

  /** The payload byte 0xAB at slot 32 of a carrier whose slots 32..39 are
      zero fills them with its bits, most significant first. */
  lemma OneBytePayloadBits(c: seq<bv8>)
    requires |c| == 40 && forall k | HeaderSlots <= k < |c| :: c[k] == 0
    ensures Embed(c, [0xAB], HeaderSlots) == c[..HeaderSlots] + [1, 0, 1, 0, 1, 0, 1, 1]
  {
    var framed := c[..HeaderSlots] + [1, 0, 1, 0, 1, 0, 1, 1];
    forall k | 0 <= k < 40
      ensures Embed(c, [0xAB], HeaderSlots)[k] == framed[k]
    {
      if k >= HeaderSlots {
        assert (k - HeaderSlots) / BitsInByte == 0;
      }
    }
  }

  /** The length 1 as the four big-endian header bytes. */
  lemma LengthOneBytes()
    ensures GetBytesFromInt(1) == [0, 0, 0, 1]
  {
    assert 1 % 0x1_0000_0000 == 1;
    assert 1 / 0x100_0000 % 0x100 == 0 && 1 / 0x1_0000 % 0x100 == 0;
    assert 1 / 0x100 % 0x100 == 0 && 1 % 0x100 == 1;
  }

  /** The frame for the payload [0xAB] on forty zero bytes. */
  lemma OneByteFrame(c: seq<bv8>)
    requires |c| == 40 && forall k | 0 <= k < |c| :: c[k] == 0
    ensures Framed(c, [0xAB]) == c[..31] + [1] + [1, 0, 1, 0, 1, 0, 1, 1]
  {
    LengthOneBytes();
    assert |[0xAB]| == 1;
    OneByteHeader(c);
    var c1 := c[..31] + [1] + c[32..];
    OneBytePayloadBits(c1);
    assert c1[..HeaderSlots] == c[..31] + [1];
  }

  /** Forty zero bytes carrying the one-byte payload 0xAB: slots 0..31 hold
      the length 1, slots 32..39 hold 1010 1011, and decoding gives 0xAB. */
  lemma OneBytePayload(c: seq<bv8>)
    requires |c| == 40 && forall k | 0 <= k < |c| :: c[k] == 0
    ensures EncodeEffect(c, [0xAB]).outcome == Pass
    ensures EncodeEffect(c, [0xAB]).carrier == c[..31] + [1] + [1, 0, 1, 0, 1, 0, 1, 1]
    ensures Decode(EncodeEffect(c, [0xAB]).carrier) == Success([0xAB])
  {
    RoundTrip(c, [0xAB]);
    OneByteFrame(c);
  }

  // ---------------------------------------------------------------------
  // The capacity guard

  /** When every slot exists the guard lets the call through ... */
  lemma GuardPassesWhenSlotsFit(n: nat, offset: nat, imageLength: nat)
    requires offset + BitsInByte * n <= imageLength <= MaxInt
    ensures !GuardRejects(n, offset, imageLength)
  {
  }

  /** ... but the guard compares bytes plus slots with slots: two payload
      bytes at slot 32 of a 40-byte carrier pass it, the first byte is
      written, and the ninth slot raises IndexOutOfBounds. */
  lemma GuardAdmitsOverrun(c: seq<bv8>)
    requires |c| == 40
    ensures !GuardRejects(2, HeaderSlots, |c|) && !SlotsFit(2, HeaderSlots, |c|)
    ensures EncodeImageEffect(c, [0xAB, 0xCD], HeaderSlots).outcome == Fail(IndexOutOfBounds)
    ensures CarriesByte(EncodeImageEffect(c, [0xAB, 0xCD], HeaderSlots).carrier, HeaderSlots, 0xAB)
  {
    var data: seq<bv8> := [0xAB, 0xCD];
    forall j | 0 <= j < BitsInByte
      ensures Embed(c, data, HeaderSlots)[HeaderSlots + j] & 1 == BitOf(0xAB, j)
    {
      assert j / BitsInByte == 0 && j % BitsInByte == j;
    }
  }

  /** With the corrected guard encodeImage never overruns the carrier: it
      rejects the call, writing nothing, exactly when a slot is missing, and
      otherwise every byte of `addition` lands in its eight slots. */
  lemma EncodeImageCheckedOutcome(c: seq<bv8>, addition: seq<bv8>, offset: int)
    ensures EncodeImageCheckedEffect(c, addition, offset).outcome != Fail(IndexOutOfBounds)
    ensures EncodeImageCheckedEffect(c, addition, offset).outcome == Pass
        <==> 0 <= offset && offset + BitsInByte * |addition| <= |c|
    ensures EncodeImageCheckedEffect(c, addition, offset).outcome.Fail? ==>
              EncodeImageCheckedEffect(c, addition, offset).carrier == c
    ensures EncodeImageCheckedEffect(c, addition, offset).outcome == Pass ==>
              forall i | 0 <= i < |addition| ::
                offset + BitsInByte * i + BitsInByte <= |c| &&
                CarriesByte(EncodeImageCheckedEffect(c, addition, offset).carrier, offset + BitsInByte * i, addition[i])
  {
  }

  /** The correction changes nothing for a non-empty addition on a carrier
      that Java can index: both guards let exactly the same calls through,
      and those calls write the same carrier. */
  lemma EncodeImageCheckedAgrees(c: seq<bv8>, addition: seq<bv8>, offset: int)
    requires 0 < |addition| && |c| <= MaxInt
    ensures EncodeImageEffect(c, addition, offset).outcome == Pass
        <==> EncodeImageCheckedEffect(c, addition, offset).outcome == Pass
    ensures EncodeImageEffect(c, addition, offset).outcome == Pass ==>
              EncodeImageEffect(c, addition, offset) == EncodeImageCheckedEffect(c, addition, offset)
  {
  }
}
