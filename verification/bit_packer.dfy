/**
  The bit packer of rf_logger.py: packs a bit list into an unsigned
  integer most significant bit first, and splits a bit list into
  consecutive chunks packed one by one.
 */
module BitPacker {
  import opened Bits

  /** The value bit_list_to_uint returns: the MSB-first value, or the sentinel -1 for a non-bit element. */
  function Uint(bits: seq<int>): int {
    if AllBits(bits) then BinVal(bits) else -1
  }

  function Min(a: int, b: int): int {
    if a <= b then a else b
  }

  /**
    The values bit_list_to_byte_list returns: consecutive chunks of
    chunkSize bits from position 0, the last one possibly shorter, each
    packed with Uint. A negative chunk size gives an empty range.
   */
  function Pack(bits: seq<int>, chunkSize: int): seq<int>
    requires chunkSize != 0
    decreases |bits|
  {
    if chunkSize < 0 || |bits| == 0 then []
    else
      var k := Min(chunkSize, |bits|);
      [Uint(bits[..k])] + Pack(bits[k..], chunkSize)
  }

  /** Reference unpacker: each value written back as chunkSize bits. */
  function Unpack(values: seq<int>, chunkSize: nat): (r: seq<int>)
    ensures |r| == |values| * chunkSize
  {
    if |values| == 0 then [] else ToBits(values[0], chunkSize) + Unpack(values[1..], chunkSize)
  }

  /** rf_logger.py `bit_list_to_uint`: shift each bit in, or give -1 at the first non-bit. */
  method BitListToUint(bitList: seq<int>) returns (value: int)
    ensures value == Uint(bitList)
    ensures value == -1 <==> !AllBits(bitList)
  {
    value := 0;
    var i := 0;
    while i < |bitList|
      invariant 0 <= i <= |bitList|
      invariant AllBits(bitList[..i]) && value == BinVal(bitList[..i]) && value >= 0
    {
      var bit := bitList[i];
      if bit == 0 || bit == 1 {
        // (value << 1) | bit, for a non-negative value and a bit
        assert bitList[..i + 1][..i] == bitList[..i];
        value := value * 2 + bit;
      } else {
        value := -1;
        break;
      }
      i := i + 1;
    }
    if value != -1 {
      assert bitList[..i] == bitList;
    }
  }

  /**
    rf_logger.py `bit_list_to_byte_list`. The second result stands for the
    "incomplete byte" warning, printed when the length is not a multiple
    of the chunk size.
   */
  method BitListToByteList(bits: seq<int>, chunkSize: int := 8) returns (byteList: seq<int>, warned: bool)
    requires chunkSize != 0
    ensures byteList == Pack(bits, chunkSize)
    ensures warned <==> |bits| % chunkSize != 0
  {
    warned := |bits| % chunkSize != 0;
    byteList := [];
    // range(0, len(bits), chunk_size) is empty for a negative step
    if chunkSize > 0 {
      var i := 0;
      while i < |bits|
        invariant 0 <= i
        invariant byteList + Pack(bits[Min(i, |bits|)..], chunkSize) == Pack(bits, chunkSize)
        decreases |bits| - i
      {
        var end := Min(i + chunkSize, |bits|);
        var bitsInByte := bits[i..end];
        var byte := BitListToUint(bitsInByte);
        PackFront(bits, chunkSize, i);
        ghost var tail := Pack(bits[end..], chunkSize);
        assert byteList + [byte] + tail == byteList + ([byte] + tail);
        byteList := byteList + [byte];
        i := i + chunkSize;
        assert Min(i, |bits|) == end;
      }
    }
  }

  /** The loop's step: the chunk at position i and what Pack makes of the rest. */
  lemma PackFront(bits: seq<int>, chunkSize: int, i: nat)
    requires chunkSize > 0 && i < |bits|
    ensures Pack(bits[i..], chunkSize)
      == [Uint(bits[i..Min(i + chunkSize, |bits|)])] + Pack(bits[Min(i + chunkSize, |bits|)..], chunkSize)
  {
    var rest := bits[i..];
    assert rest[..Min(chunkSize, |rest|)] == bits[i..Min(i + chunkSize, |bits|)];
    assert rest[Min(chunkSize, |rest|)..] == bits[Min(i + chunkSize, |bits|)..];
  }

  /**
    bit_list_to_uint on a 0/1 list of length n gives its MSB-first value,
    which lies in [0, 2^n) and encodes back to the list; any other element
    gives -1; the empty list gives 0.
   */
  lemma UintCases(bits: seq<int>)
    ensures AllBits(bits) ==> 0 <= Uint(bits) < Pow2(|bits|) && ToBits(Uint(bits), |bits|) == bits
    ensures !AllBits(bits) ==> Uint(bits) == -1
    ensures Uint([]) == 0
  {
    if AllBits(bits) {
      BinValBounds(bits);
      ToBitsOfBinVal(bits);
    }
  }

  /**
    Pack gives ceil(len / chunkSize) values: none for the empty list, and
    otherwise the least m with len <= m * chunkSize.
   */
  lemma {:induction false} PackCount(bits: seq<int>, chunkSize: int)
    requires chunkSize > 0
    ensures var m := |Pack(bits, chunkSize)|;
      (m == 0 <==> |bits| == 0) && (m - 1) * chunkSize < |bits| <= m * chunkSize
    decreases |bits|
  {
    PackStep(bits, chunkSize);
    if |bits| > chunkSize {
      PackCount(bits[chunkSize..], chunkSize);
      CountArith(|Pack(bits[chunkSize..], chunkSize)|, chunkSize, |bits|);
    }
  }

  /** How many values the first chunk contributes. */
  lemma PackStep(bits: seq<int>, chunkSize: int)
    requires chunkSize > 0
    ensures |bits| == 0 ==> |Pack(bits, chunkSize)| == 0
    ensures 0 < |bits| <= chunkSize ==> |Pack(bits, chunkSize)| == 1
    ensures |bits| > chunkSize ==> |Pack(bits, chunkSize)| == 1 + |Pack(bits[chunkSize..], chunkSize)|
  {
  }

  /** One more chunk of c moves the bounds (m - 1) * c < n <= m * c up by c. */
  lemma CountArith(m: int, c: int, n: int)
    requires (m - 1) * c < n - c <= m * c
    ensures m * c < n <= (m + 1) * c
  {
    assert (m + 1) * c == m * c + c;
    assert (m - 1) * c + c == m * c;
  }

  /**
    Value j of Pack is Uint of the bits from j * chunkSize up to
    (j + 1) * chunkSize or the end of the list, whichever comes first:
    the short last chunk is packed, not dropped.
   */
  lemma {:induction false} PackChunk(bits: seq<int>, chunkSize: int, j: nat)
    requires chunkSize > 0 && j < |Pack(bits, chunkSize)|
    ensures j * chunkSize < |bits|
    ensures Pack(bits, chunkSize)[j] == Uint(bits[j * chunkSize .. Min(j * chunkSize + chunkSize, |bits|)])
    decreases |bits|
  {
    if j > 0 {
      var t := bits[chunkSize..];
      PackChunk(t, chunkSize, j - 1);
      ShiftedChunk(bits, chunkSize, j);
    }
  }

  lemma ShiftedChunk(bits: seq<int>, chunkSize: int, j: nat)
    requires chunkSize > 0 && j > 0 && |bits| > chunkSize
    requires (j - 1) * chunkSize < |bits| - chunkSize
    ensures j * chunkSize < |bits|
    ensures var a := (j - 1) * chunkSize; var t := bits[chunkSize..];
      t[a .. Min(a + chunkSize, |t|)] == bits[j * chunkSize .. Min(j * chunkSize + chunkSize, |bits|)]
  {
    var a := (j - 1) * chunkSize;
    var b := j * chunkSize;
    assert a + chunkSize == b;
  }

  /** With the default chunk size of 8 the count is (len + 7) / 8. */
  lemma PackLengthBytes(bits: seq<int>)
    ensures |Pack(bits, 8)| == (|bits| + 7) / 8
  {
    PackCount(bits, 8);
  }

  /** A 0/1 list packs into values that each fit in chunkSize bits. */
  lemma {:induction false} PackValuesInRange(bits: seq<int>, chunkSize: int)
    requires chunkSize > 0 && AllBits(bits)
    ensures forall j :: 0 <= j < |Pack(bits, chunkSize)| ==> 0 <= Pack(bits, chunkSize)[j] < Pow2(chunkSize)
    decreases |bits|
  {
    if |bits| > 0 {
      var k := Min(chunkSize, |bits|);
      var head := bits[..k];
      var t := bits[k..];
      assert AllBits(head) by {
        forall i | 0 <= i < |head| ensures IsBit(head[i]) {
          assert head[i] == bits[i];
        }
      }
      assert AllBits(t) by {
        forall i | 0 <= i < |t| ensures IsBit(t[i]) {
          assert t[i] == bits[i + k];
        }
      }
      BinValBounds(head);
      Pow2Monotone(k, chunkSize);
      PackValuesInRange(t, chunkSize);
    }
  }

  lemma {:induction false} Pow2Monotone(m: nat, n: nat)
    requires m <= n
    ensures Pow2(m) <= Pow2(n)
    decreases n
  {
    if m < n {
      Pow2Monotone(m, n - 1);
    }
  }

  /** A 0/1 list whose length is a multiple of the chunk size is recovered by unpacking. */
  lemma {:induction false} UnpackPack(bits: seq<int>, chunkSize: nat)
    requires chunkSize > 0 && AllBits(bits) && |bits| % chunkSize == 0
    ensures Unpack(Pack(bits, chunkSize), chunkSize) == bits
    decreases |bits|
  {
    if |bits| > 0 {
      assert chunkSize <= |bits| by {
        if |bits| < chunkSize {
          ModUnique(|bits|, chunkSize, 0, |bits|);
        }
      }
      var head := bits[..chunkSize];
      var t := bits[chunkSize..];
      assert AllBits(head) by {
        forall i | 0 <= i < |head| ensures IsBit(head[i]) {
          assert head[i] == bits[i];
        }
      }
      assert AllBits(t) by {
        forall i | 0 <= i < |t| ensures IsBit(t[i]) {
          assert t[i] == bits[i + chunkSize];
        }
      }
      ModSubtract(|bits|, chunkSize);
      UnpackPack(t, chunkSize);
      ToBitsOfBinVal(head);
      var p := Pack(bits, chunkSize);
      assert p[1..] == Pack(t, chunkSize);
      assert bits == head + t;
    }
  }

  lemma {:induction false} MulAtLeast(d: nat, c: nat)
    requires d >= 1
    ensures d * c >= c
    decreases d
  {
    if d > 1 {
      MulAtLeast(d - 1, c);
      assert d * c == (d - 1) * c + c;
    }
  }

  /** The remainder is determined by any quotient-remainder decomposition. */
  lemma ModUnique(n: int, c: int, q: int, r: int)
    requires c > 0 && n == q * c + r && 0 <= r < c
    ensures n % c == r
  {
    var q0, r0 := n / c, n % c;
    assert n == q0 * c + r0;
    assert (q - q0) * c == r0 - r;
    if q > q0 {
      MulAtLeast(q - q0, c);
    } else if q < q0 {
      assert (q0 - q) * c == r - r0;
      MulAtLeast(q0 - q, c);
    }
  }

  lemma ModSubtract(n: nat, c: nat)
    requires 0 < c <= n
    ensures (n - c) % c == n % c
  {
    var q, r := n / c, n % c;
    assert n == q * c + r;
    assert n - c == (q - 1) * c + r;
    ModUnique(n - c, c, q - 1, r);
  }

  /** Values that each fit in chunkSize bits are recovered by packing their unpacking. */
  lemma {:induction false} PackUnpack(values: seq<int>, chunkSize: nat)
    requires chunkSize > 0
    requires forall j :: 0 <= j < |values| ==> 0 <= values[j] < Pow2(chunkSize)
    ensures Pack(Unpack(values, chunkSize), chunkSize) == values
    decreases |values|
  {
    if values != [] {
      var u := Unpack(values, chunkSize);
      var head := ToBits(values[0], chunkSize);
      assert u[..chunkSize] == head;
      assert u[chunkSize..] == Unpack(values[1..], chunkSize);
      BinValOfToBits(values[0], chunkSize);
      PackUnpack(values[1..], chunkSize);
      assert values == [values[0]] + values[1..];
    }
  }

  /** Worked case: the alternating byte packs to 0xAA. */
  lemma PackByteExample()
    ensures Pack([1, 0, 1, 0, 1, 0, 1, 0], 8) == [170]
  {
    var a := [1, 0, 1, 0, 1, 0, 1, 0];
    assert a[..8] == a && a[8..] == [];
    assert AllBits(a);
    assert [1, 0][..1] == [1] && BinVal([1, 0]) == 2;
    assert [1, 0, 1][..2] == [1, 0] && BinVal([1, 0, 1]) == 5;
    assert [1, 0, 1, 0][..3] == [1, 0, 1] && BinVal([1, 0, 1, 0]) == 10;
    assert [1, 0, 1, 0, 1][..4] == [1, 0, 1, 0] && BinVal([1, 0, 1, 0, 1]) == 21;
    assert [1, 0, 1, 0, 1, 0][..5] == [1, 0, 1, 0, 1] && BinVal([1, 0, 1, 0, 1, 0]) == 42;
    assert [1, 0, 1, 0, 1, 0, 1][..6] == [1, 0, 1, 0, 1, 0] && BinVal([1, 0, 1, 0, 1, 0, 1]) == 85;
    assert a[..7] == [1, 0, 1, 0, 1, 0, 1];
  }

  /**
    Worked case: with the default chunk size, twelve zero bits give two
    values, the short last chunk of four bits being packed rather than
    dropped, and the incomplete-byte warning is raised.
   */
  method PackShortTailExample() returns (byteList: seq<int>, warned: bool)
    ensures byteList == [0, 0] && warned
  {
    var z := [0, 0, 0, 0, 0, 0, 0, 0, 0, 0, 0, 0];
    byteList, warned := BitListToByteList(z);
    TwelveZerosPack();
  }

  lemma TwelveZerosPack()
    ensures Pack([0, 0, 0, 0, 0, 0, 0, 0, 0, 0, 0, 0], 8) == [0, 0]
  {
    var z := [0, 0, 0, 0, 0, 0, 0, 0, 0, 0, 0, 0];
    assert z[..8] == [0, 0, 0, 0, 0, 0, 0, 0] && z[8..] == [0, 0, 0, 0];
    ZerosValue(z[..8]);
    ZerosValue(z[8..]);
    assert [0, 0, 0, 0][..4] == [0, 0, 0, 0] && [0, 0, 0, 0][4..] == [];
  }

  /** Worked case: a chunk holding a 2 packs to -1, and packing goes on with the next chunk. */
  lemma PackIllegalBitExample()
    ensures Pack([1, 2, 1, 1], 2) == [-1, 3]
  {
    var b := [1, 2, 1, 1];
    assert b[..2] == [1, 2] && b[2..] == [1, 1];
    assert !IsBit([1, 2][1]) && Uint([1, 2]) == -1;
    assert [1, 1][..2] == [1, 1] && [1, 1][2..] == [] && [1, 1][..1] == [1];
    assert AllBits([1, 1]) && BinVal([1, 1]) == 3;
    assert Pack([1, 1], 2) == [3];
  }

  /** A list of zeros packs to 0. */
  lemma {:induction false} ZerosValue(s: seq<int>)
    requires forall i :: 0 <= i < |s| ==> s[i] == 0
    ensures Uint(s) == 0
    decreases |s|
  {
    if |s| > 0 {
      var init := s[..|s| - 1];
      assert forall i :: 0 <= i < |init| ==> init[i] == s[i];
      ZerosValue(init);
    }
  }
}
