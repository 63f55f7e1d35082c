/**
  The bit-string renderer of rf_logger.py: writes every element of a bit
  list as its decimal text, optionally with '|' before each group of 8
  and a space between the two nibbles of a group.
 */
module BitString {
  import opened Bits

  /** What the renderer writes before element i: '|' at a group of 8, ' ' at the second nibble. */
  function Marker(i: nat, separator: bool): string {
    if !separator then ""
    else if i % 8 == 0 then "|"
    else if i % 4 == 0 then " "
    else ""
  }

  function DigitChar(d: int): char
    requires 0 <= d < 10
  {
    ('0' as int + d) as char
  }

  function NatStr(n: nat): string
    decreases n
  {
    if n < 10 then [DigitChar(n)] else NatStr(n / 10) + [DigitChar(n % 10)]
  }

  /** Decimal text of an integer, as Python's str gives it. */
  function IntStr(n: int): string {
    if n < 0 then "-" + NatStr(-n) else NatStr(n)
  }

  /** The string bit_list_to_bit_str builds. */
  function BitStr(bits: seq<int>, separator: bool): string
    decreases |bits|
  {
    if |bits| == 0 then ""
    else
      var n := |bits| - 1;
      BitStr(bits[..n], separator) + Marker(n, separator) + IntStr(bits[n])
  }

  /** The character of a strict bit. */
  function BitChar(b: int): char {
    if b == 0 then '0' else '1'
  }

  /** Reference parser: the bits written as '0' and '1', every other character skipped. */
  function ParseBits(s: string): seq<int>
    decreases |s|
  {
    if |s| == 0 then []
    else
      var c := s[|s| - 1];
      ParseBits(s[..|s| - 1]) + (if c == '0' then [0] else if c == '1' then [1] else [])
  }

  /** The string with every '|' and ' ' removed. */
  function Strip(s: string): string
    decreases |s|
  {
    if |s| == 0 then ""
    else
      var c := s[|s| - 1];
      Strip(s[..|s| - 1]) + (if c == '|' || c == ' ' then "" else [c])
  }

  /** rf_logger.py `bit_list_to_bit_str`. */
  method BitListToBitStr(bitList: seq<int>, separator: bool := false) returns (bitStr: string)
    ensures bitStr == BitStr(bitList, separator)
  {
    bitStr := "";
    for i := 0 to |bitList|
      invariant bitStr == BitStr(bitList[..i], separator)
    {
      ghost var before := bitStr;
      if separator {
        if i % 8 == 0 {
          bitStr := bitStr + "|";
        } else if i % 4 == 0 {
          bitStr := bitStr + " ";
        }
      }
      assert bitStr == before + Marker(i, separator);
      bitStr := bitStr + IntStr(bitList[i]);
      assert bitList[..i + 1][..i] == bitList[..i];
    }
    assert bitList[..|bitList|] == bitList;
  }

  lemma BitText(b: int)
    requires IsBit(b)
    ensures IntStr(b) == [BitChar(b)]
  {
  }

  /** Without the separator flag a 0/1 list is written one digit per bit, in order. */
  lemma {:induction false} PlainBitStr(bits: seq<int>)
    requires AllBits(bits)
    ensures |BitStr(bits, false)| == |bits|
    ensures forall i :: 0 <= i < |bits| ==> BitStr(bits, false)[i] == BitChar(bits[i])
    decreases |bits|
  {
    if bits != [] {
      var n := |bits| - 1;
      AllBitsSlice(bits, 0, n);
      PlainBitStr(bits[..n]);
      BitText(bits[n]);
      var r := BitStr(bits, false);
      forall i | 0 <= i < |bits| ensures r[i] == BitChar(bits[i]) {
        if i < n {
          assert r[i] == BitStr(bits[..n], false)[i];
        }
      }
    }
  }

  /** The length of the rendering grows by the marker and the text of the last element. */
  lemma BitStrStep(bits: seq<int>, separator: bool)
    requires |bits| > 0
    ensures |BitStr(bits, separator)| ==
      |BitStr(bits[..|bits| - 1], separator)| + |Marker(|bits| - 1, separator)| + |IntStr(bits[|bits| - 1])|
  {
  }

  /** A marker stands before element n exactly when n starts a nibble, so n + 1 elements carry ceil((n + 1)/4) of them. */
  lemma MarkerArith(n: nat)
    ensures |Marker(n, true)| + (n + 3) / 4 == (n + 4) / 4
  {
    if n % 4 == 0 {
      assert (n + 4) / 4 == (n + 3) / 4 + 1;
    } else {
      assert (n + 4) / 4 == (n + 3) / 4;
    }
  }

  /** The separated rendering adds one marker character per nibble start, ceil(n/4) in all. */
  lemma {:induction false} MarkerCount(bits: seq<int>)
    ensures |BitStr(bits, true)| == |BitStr(bits, false)| + (|bits| + 3) / 4
    decreases |bits|
  {
    if |bits| > 0 {
      var n := |bits| - 1;
      MarkerCount(bits[..n]);
      BitStrStep(bits, true);
      BitStrStep(bits, false);
      MarkerArith(n);
    }
  }

  /** A 0/1 list of n bits rendered with the separator flag takes n + ceil(n/4) characters. */
  lemma SeparatedLength(bits: seq<int>)
    requires AllBits(bits)
    ensures |BitStr(bits, true)| == |bits| + (|bits| + 3) / 4
  {
    PlainBitStr(bits);
    MarkerCount(bits);
  }

  /** The rendering of a prefix of the list is a prefix of the rendering. */
  lemma {:induction false} BitStrPrefix(bits: seq<int>, separator: bool, m: nat)
    requires m <= |bits|
    ensures |BitStr(bits[..m], separator)| <= |BitStr(bits, separator)|
    ensures BitStr(bits[..m], separator) == BitStr(bits, separator)[..|BitStr(bits[..m], separator)|]
    decreases |bits|
  {
    if m == |bits| {
      assert bits[..m] == bits;
    } else {
      var n := |bits| - 1;
      var init := bits[..n];
      BitStrPrefix(init, separator, m);
      assert init[..m] == bits[..m];
      BitStrPrefixLast(bits, separator);
      PrefixTrans(BitStr(bits[..m], separator), BitStr(init, separator), BitStr(bits, separator));
    }
  }

  lemma BitStrPrefixLast(bits: seq<int>, separator: bool)
    requires |bits| > 0
    ensures var p := BitStr(bits[..|bits| - 1], separator);
      |p| <= |BitStr(bits, separator)| && p == BitStr(bits, separator)[..|p|]
  {
    var n := |bits| - 1;
    var p := BitStr(bits[..n], separator);
    var pm := p + Marker(n, separator);
    var r := BitStr(bits, separator);
    assert r == pm + IntStr(bits[n]);
    assert r[..|pm|] == pm && pm[..|p|] == p;
    PrefixTrans(p, pm, r);
  }

  lemma PrefixTrans(x: string, p: string, r: string)
    requires |x| <= |p| && x == p[..|x|]
    requires |p| <= |r| && p == r[..|p|]
    ensures x == r[..|x|]
  {
  }

  /** The last bit n of a separated rendering and the marker before it. */
  lemma SeparatedLast(bits: seq<int>, n: nat)
    requires AllBits(bits) && |bits| == n + 1
    ensures n + n / 4 + 1 < |BitStr(bits, true)|
    ensures BitStr(bits, true)[n + n / 4 + 1] == BitChar(bits[n])
    ensures n % 4 == 0 ==> BitStr(bits, true)[n + n / 4] == if n % 8 == 0 then '|' else ' '
  {
    AllBitsSlice(bits, 0, n);
    SeparatedLength(bits[..n]);
    BitText(bits[n]);
    var p := BitStr(bits[..n], true);
    var m := Marker(n, true);
    var r := BitStr(bits, true);
    assert r == (p + m) + [BitChar(bits[n])];
    MarkerPosition(n);
    assert r[|p| + |m|] == BitChar(bits[n]);
    if n % 4 == 0 {
      assert r[|p|] == m[0];
    }
  }

  /** Where the marker and the digit of element n stand, after n elements and their ceil(n/4) markers. */
  lemma MarkerPosition(n: nat)
    ensures n + (n + 3) / 4 + |Marker(n, true)| == n + n / 4 + 1
    ensures n % 4 == 0 ==> n + (n + 3) / 4 == n + n / 4 && |Marker(n, true)| == 1
  {
  }

  /** Where bit i and the marker before it stand in the separated rendering. */
  lemma SeparatedAt(bits: seq<int>, i: nat)
    requires AllBits(bits) && i < |bits|
    ensures i + i / 4 + 1 < |BitStr(bits, true)|
    ensures BitStr(bits, true)[i + i / 4 + 1] == BitChar(bits[i])
    ensures i % 4 == 0 ==> BitStr(bits, true)[i + i / 4] == if i % 8 == 0 then '|' else ' '
  {
    var pre := bits[..i + 1];
    AllBitsSlice(bits, 0, i + 1);
    SeparatedLast(pre, i);
    BitStrPrefix(bits, true, i + 1);
    assert pre[i] == bits[i];
  }

  /**
    With the separator flag a 0/1 list of n bits is written in n + ceil(n/4)
    characters: bit i stands at position i + i/4 + 1, and the character
    before each nibble (bit i with i % 4 == 0) is '|' when i starts a
    group of 8 and a space otherwise.
   */
  lemma SeparatedBitStr(bits: seq<int>)
    requires AllBits(bits)
    ensures |BitStr(bits, true)| == |bits| + (|bits| + 3) / 4
    ensures forall i :: 0 <= i < |bits| ==> BitStr(bits, true)[i + i / 4 + 1] == BitChar(bits[i])
    ensures forall i :: 0 <= i < |bits| && i % 4 == 0 ==>
      BitStr(bits, true)[i + i / 4] == if i % 8 == 0 then '|' else ' '
  {
    SeparatedLength(bits);
    forall i | 0 <= i < |bits|
      ensures BitStr(bits, true)[i + i / 4 + 1] == BitChar(bits[i])
      ensures i % 4 == 0 ==> BitStr(bits, true)[i + i / 4] == if i % 8 == 0 then '|' else ' '
    {
      SeparatedAt(bits, i);
    }
  }

  lemma {:induction false} ParseBitsAppend(a: string, b: string)
    ensures ParseBits(a + b) == ParseBits(a) + ParseBits(b)
    decreases |b|
  {
    if b == "" {
      assert a + b == a;
    } else {
      var b' := b[..|b| - 1];
      ParseBitsAppend(a, b');
      assert (a + b)[..|a + b| - 1] == a + b';
      assert (a + b)[|a + b| - 1] == b[|b| - 1];
    }
  }

  lemma {:induction false} StripAppend(a: string, b: string)
    ensures Strip(a + b) == Strip(a) + Strip(b)
    decreases |b|
  {
    if b == "" {
      assert a + b == a;
    } else {
      var b' := b[..|b| - 1];
      StripAppend(a, b');
      assert (a + b)[..|a + b| - 1] == a + b';
      assert (a + b)[|a + b| - 1] == b[|b| - 1];
    }
  }

  lemma ParseBitsOfMarker(i: nat, separator: bool)
    ensures ParseBits(Marker(i, separator)) == []
  {
    var m := Marker(i, separator);
    if m != "" {
      assert m[..|m| - 1] == "";
    }
  }

  lemma ParseBitsOfBit(b: int)
    requires IsBit(b)
    ensures ParseBits(IntStr(b)) == [b]
  {
    BitText(b);
    assert [BitChar(b)][..0] == "";
  }

  /** Under either flag, reading back the digits of the rendering of a 0/1 list gives the list. */
  lemma {:induction false} BitStrRoundTrip(bits: seq<int>, separator: bool)
    requires AllBits(bits)
    ensures ParseBits(BitStr(bits, separator)) == bits
    decreases |bits|
  {
    if bits != [] {
      var n := |bits| - 1;
      var init := bits[..n];
      AllBitsSlice(bits, 0, n);
      BitStrRoundTrip(init, separator);
      ParseBitsOfMarker(n, separator);
      ParseBitsOfBit(bits[n]);
      ParseBitsAround(BitStr(init, separator), Marker(n, separator), IntStr(bits[n]));
      SplitLast(bits);
    }
  }

  lemma ParseBitsAround(a: string, b: string, c: string)
    requires ParseBits(b) == []
    ensures ParseBits(a + b + c) == ParseBits(a) + ParseBits(c)
  {
    ParseBitsAppend(a + b, c);
    ParseBitsAppend(a, b);
  }

  predicate IsMarker(c: char) {
    c == '|' || c == ' '
  }

  /** Decimal text is made of digits, after a '-' for a negative value. */
  lemma {:induction false} IntStrChars(x: int)
    ensures forall i :: 0 <= i < |IntStr(x)| ==> !IsMarker(IntStr(x)[i])
  {
    var n: nat := if x < 0 then -x else x;
    NatStrDigits(n);
  }

  lemma {:induction false} NatStrDigits(n: nat)
    ensures forall i :: 0 <= i < |NatStr(n)| ==> '0' <= NatStr(n)[i] <= '9'
    decreases n
  {
    if n >= 10 {
      NatStrDigits(n / 10);
    }
  }

  lemma {:induction false} StripNoMarkers(s: string)
    requires forall i :: 0 <= i < |s| ==> !IsMarker(s[i])
    ensures Strip(s) == s
    decreases |s|
  {
    if s != "" {
      var init := s[..|s| - 1];
      assert forall i :: 0 <= i < |init| ==> init[i] == s[i];
      StripNoMarkers(init);
      assert !IsMarker(s[|s| - 1]);
    }
  }

  /** Removing the '|' and ' ' markers from the separated rendering leaves the plain one, for any integers. */
  lemma {:induction false} StripSeparators(bits: seq<int>)
    ensures Strip(BitStr(bits, true)) == BitStr(bits, false)
    decreases |bits|
  {
    if bits != [] {
      var n := |bits| - 1;
      StripSeparators(bits[..n]);
      var p := BitStr(bits[..n], true);
      var m := Marker(n, true);
      var d := IntStr(bits[n]);
      StripAppend(p + m, d);
      StripAppend(p, m);
      assert Strip(m) == "" by {
        if m != "" {
          assert m[..|m| - 1] == "";
        }
      }
      IntStrChars(bits[n]);
      StripNoMarkers(d);
    }
  }
}
