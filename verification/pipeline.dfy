/**
  The stages of rf_logger.py composed as its receive loop uses them on a
  payload: bits packed into bytes with the default chunk size of 8, then
  rendered as hexadecimal text.
 */
module Pipeline {
  import opened Bits
  import opened BitPacker
  import opened HexRenderer
  import opened LineDecoder

  /**
    A 0/1 payload whose length is a multiple of 8 packs into len/8 bytes
    that render without a warning into 2 characters per byte plus the
    separators, and reading the text back and unpacking it gives the
    payload.
   */
  lemma HexOfBitsRoundTrip(bits: seq<int>, sep: string)
    requires AllBits(bits) && |bits| % 8 == 0
    ensures var bytes := Pack(bits, 8);
      |bytes| == |bits| / 8 && OutOfRange(bytes) == 0 &&
      (|bits| > 0 ==> |Render(bytes, sep)| == 2 * |bytes| + |sep| * (|bytes| - 1)) &&
      Unpack(ParseHex(Render(bytes, sep), |sep|), 8) == bits
  {
    var bytes := Pack(bits, 8);
    PackLengthBytes(bits);
    PackValuesInRange(bits, 8);
    assert Pow2(8) == 256;
    assert forall j :: 0 <= j < |bytes| ==> InByteRange(bytes[j]);
    NoWarnings(bytes);
    RenderLength(bytes, sep);
    RenderParse(bytes, sep);
    UnpackPack(bits, 8);
  }

  /**
    One pass of the receive loop on a Manchester-coded payload: the
    decoder reports no error and recovers the payload, whose hexadecimal
    rendering then reads back as the payload.
   */
  lemma ReceiveManchesterPayload(bits: seq<int>, encoding: int, sep: string)
    requires AllBits(bits) && |bits| % 8 == 0 && IsManchester(encoding)
    ensures var rx := ManchesterEncode(bits, encoding == MANCH_INV);
      DecoderDefined(rx, encoding) && Decode(rx, encoding) == bits &&
      2 * GoodPairs(rx) == |rx| &&
      Unpack(ParseHex(Render(Pack(Decode(rx, encoding), 8), sep), |sep|), 8) == bits
  {
    ManchesterDecodesEncoding(bits, encoding == MANCH_INV);
    HexOfBitsRoundTrip(bits, sep);
  }

  /**
    The body of the receive loop in `main` for one received payload:
    decode with the selected line code, pack with the default chunk size
    and render with the default separator. The printed line is the
    rendering of the packed decoding.
   */
  method ReceivePayload(rxBits: seq<int>, decode: int) returns (line: string)
    requires DecoderDefined(rxBits, decode)
    ensures line == Render(Pack(Decode(rxBits, decode), 8), " ")
    ensures AllBits(rxBits) && |rxBits| % 8 == 0 && !IsManchester(decode) && decode != MANCH_DIFF ==>
      Unpack(ParseHex(line, 1), 8) == rxBits
  {
    var decodedBits, _ := Decoder(rxBits, decode);
    var decodedBytes, _ := BitListToByteList(decodedBits);
    var text, _ := ByteListToHexStr(decodedBytes);
    line := text;
    if AllBits(rxBits) && |rxBits| % 8 == 0 && !IsManchester(decode) && decode != MANCH_DIFF {
      HexOfBitsRoundTrip(rxBits, " ");
    }
  }
}
