# rf_logger decoding core in Dafny

`rf_logger.py` receives demodulated packets as lists of channel symbols and prints
each one as hexadecimal bytes. Its core turns those symbols into text in three stages:

1. `decoder` undoes the line code. It supports four codes: NRZ (no coding),
   Manchester, inverted Manchester and the repository's differential Manchester.
2. `bit_list_to_byte_list` packs the bits into chunks, using `bit_list_to_uint` on each chunk.
3. `byte_list_to_hex_str` writes the bytes as hexadecimal text.

`bit_list_to_bit_str` is a further renderer that writes a bit list as 0/1 text.

The project models each of these functions as a Dafny method with the same loop. Each
method is proved equal to a pure specification function. Lemmas then prove what the
functions promise, mostly as round trips against independent reference definitions:

- a Manchester encoder;
- a bit unpacker;
- a hexadecimal parser;
- a 0/1 text parser.

Modules, one file each:

- `Bits` (`bits.dfy`): what counts as a bit, the most-significant-bit-first value of a
  bit list (`BinVal`) and its inverse (`ToBits`).
- `LineDecoder` (`line_decoder.dfy`): the encoding constants and `decoder`.
- `BitPacker` (`bit_packer.dfy`): `bit_list_to_uint` and `bit_list_to_byte_list`.
- `HexRenderer` (`hex_renderer.dfy`): `byte_list_to_hex_str`.
- `BitString` (`bit_string.dfy`): `bit_list_to_bit_str`.
- `Pipeline` (`pipeline.dfy`): the stages composed as the receive loop in `main` uses them.

Each warning or error line the source prints becomes a result of the method that prints it:

- `decoder`'s "Manchester Decode Error" is `decodeError`.
- The "incomplete byte" warning is `warned`.
- The "Byte value not 0-255" warnings are counted by `warnings`.

List elements are Dafny `int`s. Python integers are unbounded too, so no width or
wrap-around is involved.

The packer keeps a short trailing chunk. It packs that chunk as a smaller value and
does not drop it (rf_logger.py:44-46), so twelve zero bits give two bytes, `[0, 0]`
(`PackShortTailExample`).

The default arguments are kept as Dafny default parameter values: a chunk size of 8
for `BitListToByteList`, the separator `" "` for `ByteListToHexStr` and no separators
for `BitListToBitStr`. `Pipeline.ReceivePayload` calls the stages with those defaults,
as `main` does.

## Model

| member | source | states |
|---|---|---|
| Bits.BinValBounds | rf_logger.py:51-61 | the shifted-in value of n bits lies in 0 .. 2^n - 1 |
| Bits.ToBitsOfBinVal | rf_logger.py:51-61 | writing the value of a bit list back in as many bits gives the list back |
| Bits.BinValOfToBits | rf_logger.py:51-61 | every value below 2^n is the value of its own n-bit encoding |
| LineDecoder.Decoder | rf_logger.py:93-116 | on every input it does not index past the end, the decoder returns the decoding for the selector (Manchester, inverted Manchester, differential) and returns other selectors' input unchanged; it reports the Manchester error exactly when a Manchester decode stops before the end of the input |
| LineDecoder.DecodeManchester | rf_logger.py:94-104 | the Manchester loop yields one symbol per leading pair with a transition (the second of the pair, or the first when inverted); it reports an error exactly when it stops before the end |
| LineDecoder.DecodeDifferential | rf_logger.py:105-112 | the differential loop yields one bit per symbol pair, 1 for equal symbols and 0 otherwise |
| LineDecoder.ManchesterStopsAtFirstBadPair | rf_logger.py:96-99 | every pair before the stopping point carries a transition; if decoding stops early, the pair where it stops exists and has two equal symbols |
| LineDecoder.ManchesterLength | rf_logger.py:96-104 | the output has one bit per decoded pair, at most half the input length |
| LineDecoder.ManchesterIsRailPrefix | rf_logger.py:96-104 | the output is a prefix of the list of every pair's chosen half (first half when inverted, second otherwise), cut at the first pair without a transition |
| LineDecoder.ManchesterAllPairsValid | rf_logger.py:96-104 | an even-length input whose every pair has a transition decodes entirely, with no error |
| LineDecoder.ManchesterConventionsComplementary | rf_logger.py:100-104 | on valid 0/1 Manchester input the two conventions give bitwise complementary outputs of the same length |
| LineDecoder.ManchesterDecodesEncoding | rf_logger.py:96-104 | decoding the Manchester encoding of any bit list, under the same convention, gives the list back, with no error |
| LineDecoder.ManchesterEncodesDecoding | rf_logger.py:96-104 | re-encoding the decoding of valid 0/1 Manchester input gives the input back |
| LineDecoder.DifferentialAt | rf_logger.py:105-112 | the differential output has half the input length, is all 0/1, and bit k is 1 exactly when pair k has no transition |
| LineDecoder.DecoderExamples | rf_logger.py:93-116 | worked cases: both Manchester conventions, an immediate decode error, differential decoding, and NRZ passthrough |
| BitPacker.BitListToUint | rf_logger.py:51-61 | the loop's result is the value of the bits shifted in from the most significant end, and it is -1 exactly when some element is not 0 or 1 |
| BitPacker.UintCases | rf_logger.py:51-61 | for a 0/1 list the result is below 2^len and writes back to the list; otherwise it is -1; the empty list gives 0 |
| BitPacker.BitListToByteList | rf_logger.py:40-48 | the loop returns the chunks from position 0, each packed, and warns exactly when the length is not a multiple of the chunk size |
| BitPacker.PackCount | rf_logger.py:44-47 | the number of chunks m is the least with len <= m * chunk size, and it is zero only for the empty list |
| BitPacker.PackChunk | rf_logger.py:44-47 | value j packs bits j*c up to min(j*c + c, len) |
| BitPacker.PackLengthBytes | rf_logger.py:40-48 | with the default chunk size of 8 there are ceil(len / 8) values |
| BitPacker.PackValuesInRange | rf_logger.py:44-47 | every value packed from a 0/1 list fits in chunk-size bits |
| BitPacker.UnpackPack | rf_logger.py:40-48 | for a 0/1 list whose length is a multiple of the chunk size, unpacking the values gives the list back |
| BitPacker.PackUnpack | rf_logger.py:40-48 | every list of values that fit in chunk-size bits is what its own unpacking packs to |
| BitPacker.PackByteExample | rf_logger.py:40-61 | 10101010 packs to the single value 170 |
| BitPacker.PackShortTailExample | rf_logger.py:40-47 | with the default chunk size, twelve zero bits raise the incomplete-byte warning and pack to two values, the short tail included |
| BitPacker.PackIllegalBitExample | rf_logger.py:44-60 | a chunk holding a non-bit packs to -1, and the other chunks are unaffected |
| HexRenderer.ByteListToHexStr | rf_logger.py:68-81 | the loop's text is the tokens joined by the separator, with no trailing separator, and it warns once per value outside 0..255 |
| HexRenderer.HexTokenCases | rf_logger.py:71-77 | a value in 0..255 becomes two lowercase hex digits, zero-padded below 16, that read as the value; any other value becomes "0xXX" |
| HexRenderer.NoWarnings | rf_logger.py:75-77 | there is at most one warning per value, and none exactly when every value is in 0..255 |
| HexRenderer.RenderLength | rf_logger.py:68-81 | for in-range values the text has 2 characters per value plus one separator between neighbours |
| HexRenderer.RenderParse | rf_logger.py:68-81 | reading two-digit tokens back, skipping separators, recovers every list of in-range values |
| HexRenderer.RenderExamples | rf_logger.py:68-81 | worked cases: zero padding, a placeholder with its warning, a single byte and the empty list |
| BitString.BitListToBitStr | rf_logger.py:28-37 | the loop writes each element's decimal text, preceded, when separated, by a marker before element i: a vertical bar for i a multiple of 8, ' ' for other multiples of 4 |
| BitString.PlainBitStr | rf_logger.py:28-37 | without separators, a 0/1 list is written one character per bit, in order |
| BitString.MarkerCount | rf_logger.py:31-35 | separators add ceil(len / 4) marker characters to the plain text |
| BitString.SeparatedLength | rf_logger.py:28-37 | a separated 0/1 list of n bits is n + ceil(n / 4) characters long |
| BitString.SeparatedAt | rf_logger.py:31-36 | in the separated text bit i sits at position i + i/4 + 1, and the position before it holds a vertical bar or a space when i is a multiple of 4 |
| BitString.SeparatedBitStr | rf_logger.py:28-37 | the length and the layout of the separated text, for every bit at once |
| BitString.BitStrRoundTrip | rf_logger.py:28-37 | reading the '0' and '1' characters of the text, with or without separators, gives the bit list back |
| BitString.StripSeparators | rf_logger.py:31-36 | removing the vertical-bar and space markers from the separated text gives the plain text, for any integer list |
| Pipeline.HexOfBitsRoundTrip | rf_logger.py:137-139 | a 0/1 payload whose length is a multiple of 8 packs into len/8 bytes that render with no warning, at the predicted length, into text that parses and unpacks to the payload |
| Pipeline.ReceiveManchesterPayload | rf_logger.py:136-139 | a Manchester-coded payload passes through the decoder with no error and becomes hex text that reads back as the payload |
| Pipeline.ReceivePayload | rf_logger.py:136-139 | one pass of the receive loop prints the hex rendering, with the default separator, of the decoding packed with the default chunk size; for an undecoded 0/1 payload whose length is a multiple of 8 that text reads back as the payload |

## Left out

- `ZmqSocketFromRxFg` (rf_logger.py:10-22) is network I/O: a ZMQ socket, the flowgraph address, and PMT deserialisation of the PDU with extraction of its u8 payload vector. The payload the loop receives is a parameter of the lemmas in `Pipeline`.
- `main` (rf_logger.py:119-143) is left out as I/O. That covers argument parsing, the endless receive loop, Ctrl-C handling and printing. Only its composition of the stages on one payload is modelled, in `Pipeline`.
- `out_file_name` (rf_logger.py:84) is never used.
- Printed messages are not modelled as text; each becomes a flag or count, as described above.
- Elements that are not integers are not modelled. That covers Python's acceptance of `True`/`False` as bits, and `str` of arbitrary objects in the bit-string renderer. All lists are `seq<int>`.
- LineDecoder.Decoder: some inputs make the source raise `IndexError`. The precondition `DecoderDefined` excludes them rather than modelling the exception. For Manchester that is an input that reaches a dangling last symbol before any pair without a transition; for differential Manchester it is any odd-length input.
- BitPacker.BitListToByteList: a chunk size of 0 raises `ZeroDivisionError` in the source. It is excluded by the precondition. A negative chunk size is modelled: the range is empty, so the result is empty.
