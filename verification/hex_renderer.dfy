/**
  The hex renderer of rf_logger.py: writes a list of byte values as
  lowercase two-digit hexadecimal tokens joined by a separator, with the
  placeholder token "0xXX" for a value outside 0..255.
 */
module HexRenderer {

  const Placeholder := "0xXX"

  predicate InByteRange(b: int) {
    0 <= b <= 255
  }

  /** The lowercase hexadecimal digit for 0..15. */
  function HexDigit(d: int): char
    requires 0 <= d < 16
  {
    if d < 10 then ('0' as int + d) as char else ('a' as int + d - 10) as char
  }

  predicate IsLowerHexDigit(c: char) {
    '0' <= c <= '9' || 'a' <= c <= 'f'
  }

  /** The value of a hexadecimal digit, or -1 for any other character. */
  function DigitValue(c: char): int {
    if '0' <= c <= '9' then c as int - '0' as int
    else if 'a' <= c <= 'f' then c as int - 'a' as int + 10
    else -1
  }

  /** The token of one value: both hex digits of a byte, or the placeholder. */
  function HexToken(b: int): string {
    if InByteRange(b) then [HexDigit(b / 16), HexDigit(b % 16)] else Placeholder
  }

  /** The tokens of all values, each separated from the next by sep, with nothing after the last. */
  function Render(bytes: seq<int>, sep: string): string
    decreases |bytes|
  {
    if |bytes| == 0 then ""
    else if |bytes| == 1 then HexToken(bytes[0])
    else Render(bytes[..|bytes| - 1], sep) + sep + HexToken(bytes[|bytes| - 1])
  }

  /** The number of values outside 0..255, one warning each. */
  function OutOfRange(bytes: seq<int>): nat
    decreases |bytes|
  {
    if |bytes| == 0 then 0
    else OutOfRange(bytes[..|bytes| - 1]) + (if InByteRange(bytes[|bytes| - 1]) then 0 else 1)
  }

  /** Reference parser: reads two-digit tokens from the end, skipping sepLen characters between them. */
  function ParseHex(s: string, sepLen: nat): seq<int>
    decreases |s|
  {
    if |s| < 2 then []
    else
      var before := if |s| >= 2 + sepLen then s[..|s| - 2 - sepLen] else "";
      ParseHex(before, sepLen) + [16 * DigitValue(s[|s| - 2]) + DigitValue(s[|s| - 1])]
  }

  /**
    rf_logger.py `byte_list_to_hex_str`. The second result counts the
    "Byte value not 0-255" warnings, one per out-of-range value.
   */
  method ByteListToHexStr(byteList: seq<int>, sepChar: string := " ") returns (s: string, warnings: nat)
    ensures s == Render(byteList, sepChar)
    ensures warnings == OutOfRange(byteList)
  {
    s := "";
    warnings := 0;
    var i := 0;
    while i < |byteList|
      invariant 0 <= i <= |byteList|
      invariant s == if i == 0 then "" else Render(byteList[..i], sepChar) + sepChar
      invariant warnings == OutOfRange(byteList[..i])
    {
      var byte := byteList[i];
      ghost var before := s;
      RenderSnoc(byteList, i, sepChar);
      if 0 <= byte <= 15 {
        s := s + ['0', HexDigit(byte)] + sepChar;
      } else if 15 <= byte <= 255 {
        s := s + [HexDigit(byte / 16), HexDigit(byte % 16)] + sepChar;
      } else {
        s := s + Placeholder + sepChar;
        warnings := warnings + 1;
      }
      assert s == before + HexToken(byte) + sepChar;
      i := i + 1;
    }
    assert byteList[..i] == byteList;
    // drop the separator written after the last token
    if |sepChar| > 0 {
      s := if |sepChar| <= |s| then s[..|s| - |sepChar|] else "";
    }
  }

  /** The loop's step: the rendering and the warning count of one more value. */
  lemma RenderSnoc(bytes: seq<int>, i: nat, sep: string)
    requires i < |bytes|
    ensures Render(bytes[..i + 1], sep)
      == (if i == 0 then "" else Render(bytes[..i], sep) + sep) + HexToken(bytes[i])
    ensures OutOfRange(bytes[..i + 1]) == OutOfRange(bytes[..i]) + (if InByteRange(bytes[i]) then 0 else 1)
  {
    assert bytes[..i + 1][..i] == bytes[..i];
  }

  /**
    A value in 0..255 becomes exactly two lowercase hex digits, zero-padded
    below 16, that read back as the value; any other value becomes "0xXX".
   */
  lemma HexTokenCases(b: int)
    ensures InByteRange(b) ==>
      |HexToken(b)| == 2 && IsLowerHexDigit(HexToken(b)[0]) && IsLowerHexDigit(HexToken(b)[1]) &&
      (b < 16 ==> HexToken(b)[0] == '0') &&
      16 * DigitValue(HexToken(b)[0]) + DigitValue(HexToken(b)[1]) == b
    ensures !InByteRange(b) ==> HexToken(b) == "0xXX"
  {
  }

  /** No warning is printed exactly when every value is in 0..255, and never more than one per value. */
  lemma {:induction false} NoWarnings(bytes: seq<int>)
    ensures OutOfRange(bytes) <= |bytes|
    ensures OutOfRange(bytes) == 0 <==> forall j :: 0 <= j < |bytes| ==> InByteRange(bytes[j])
    decreases |bytes|
  {
    if |bytes| > 0 {
      var n := |bytes| - 1;
      var init := bytes[..n];
      NoWarnings(init);
      assert forall j :: 0 <= j < n ==> init[j] == bytes[j];
    }
  }

  /** With every value in range, the rendering is 2 characters per value plus one separator between neighbours. */
  lemma {:induction false} RenderLength(bytes: seq<int>, sep: string)
    requires forall j :: 0 <= j < |bytes| ==> InByteRange(bytes[j])
    ensures |bytes| > 0 ==> |Render(bytes, sep)| == 2 * |bytes| + |sep| * (|bytes| - 1)
    decreases |bytes|
  {
    var n := |bytes|;
    if n > 1 {
      RenderLength(bytes[..n - 1], sep);
      assert |sep| * (n - 2) + |sep| == |sep| * (n - 1);
    }
  }

  /** One step of the reference parser: the last token and what stands before its separator. */
  lemma ParseHexLast(before: string, sep: string, token: string)
    requires |token| == 2
    ensures ParseHex(before + sep + token, |sep|)
      == ParseHex(before, |sep|) + [16 * DigitValue(token[0]) + DigitValue(token[1])]
  {
    var s := before + sep + token;
    assert s[..|s| - 2 - |sep|] == before;
    assert s[|s| - 2] == token[0] && s[|s| - 1] == token[1];
  }

  /** A lone token is read as one value. */
  lemma ParseHexToken(token: string, sepLen: nat)
    requires |token| == 2
    ensures ParseHex(token, sepLen) == [16 * DigitValue(token[0]) + DigitValue(token[1])]
  {
    if 2 + sepLen <= 2 {
      assert token[..0] == "";
    }
  }

  /** A value's token reads back as the value. */
  lemma TokenReadsBack(b: int)
    requires InByteRange(b)
    ensures |HexToken(b)| == 2 && 16 * DigitValue(HexToken(b)[0]) + DigitValue(HexToken(b)[1]) == b
  {
    HexTokenCases(b);
  }

  /** Parsing a rendering of in-range values with the separator's length gives the values back. */
  lemma {:induction false} RenderParse(bytes: seq<int>, sep: string)
    requires forall j :: 0 <= j < |bytes| ==> InByteRange(bytes[j])
    ensures ParseHex(Render(bytes, sep), |sep|) == bytes
    decreases |bytes|
  {
    var n := |bytes|;
    if n == 1 {
      TokenReadsBack(bytes[0]);
      ParseHexToken(HexToken(bytes[0]), |sep|);
      assert bytes == [bytes[0]];
    } else if n > 1 {
      var init := bytes[..n - 1];
      var token := HexToken(bytes[n - 1]);
      assert Render(bytes, sep) == Render(init, sep) + sep + token;
      RenderParse(init, sep);
      TokenReadsBack(bytes[n - 1]);
      ParseHexLast(Render(init, sep), sep, token);
      assert bytes == init + [bytes[n - 1]];
    }
  }

  /** The documented renderings: a zero-padded value, a placeholder, and the empty list. */
  lemma RenderExamples()
    ensures Render([16, 300, 5], " ") == "10 0xXX 05" && OutOfRange([16, 300, 5]) == 1
    ensures Render([170], " ") == "aa"
    ensures Render([], ":") == ""
  {
    var xs := [16, 300, 5];
    assert xs[..2] == [16, 300] && [16, 300][..1] == [16];
    assert OutOfRange([16]) == 0;
  }
}
