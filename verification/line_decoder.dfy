/**
  The line decoder of rf_logger.py: turns received channel symbols into
  logical bits under one of the line codes NRZ (no coding), Manchester
  (IEEE 802.3 convention), inverted Manchester (G. E. Thomas convention)
  and the repository's differential Manchester.
 */
module LineDecoder {
  import opened Bits

  // The encoding selector is a plain integer; these are the recognised values.
  const NRZ := 0
  const MANCH := 1
  const MANCH_INV := 2
  const MANCH_DIFF := 3

  predicate IsManchester(encoding: int) {
    encoding == MANCH || encoding == MANCH_INV
  }

  /** Symbol pair k exists and carries a transition. */
  predicate PairDiffers(s: seq<int>, k: nat) {
    2 * k + 1 < |s| && s[2 * k] != s[2 * k + 1]
  }

  /**
    The Manchester loop reads s[i + 1] for every even i it reaches, so it
    stays inside the list exactly when the list has even length, or when
    it meets a pair without transition before it reaches a dangling last
    symbol.
   */
  predicate ManchesterDefined(s: seq<int>)
    decreases |s|
  {
    |s| == 0 || (|s| >= 2 && (s[0] == s[1] || ManchesterDefined(s[2..])))
  }

  /** The inputs on which the decoder does not index past the end of the list. */
  predicate DecoderDefined(s: seq<int>, encoding: int) {
    if IsManchester(encoding) then ManchesterDefined(s)
    else if encoding == MANCH_DIFF then |s| % 2 == 0
    else true
  }

  /** Manchester decoding: one symbol per pair, stopping at the first pair without transition. */
  function Manchester(s: seq<int>, inverted: bool): seq<int>
    requires ManchesterDefined(s)
    decreases |s|
  {
    if |s| == 0 || s[0] == s[1] then []
    else [if inverted then s[0] else s[1]] + Manchester(s[2..], inverted)
  }

  /** Differential decoding: 1 for a pair of equal symbols, 0 otherwise. */
  function Differential(s: seq<int>): seq<int>
    requires |s| % 2 == 0
    decreases |s|
  {
    if |s| == 0 then []
    else [if s[0] == s[1] then 1 else 0] + Differential(s[2..])
  }

  /** What the decoder returns for a given selector. */
  function Decode(s: seq<int>, encoding: int): seq<int>
    requires DecoderDefined(s, encoding)
  {
    if IsManchester(encoding) then Manchester(s, encoding == MANCH_INV)
    else if encoding == MANCH_DIFF then Differential(s)
    else s
  }

  /** The number of leading symbol pairs that carry a transition. */
  function GoodPairs(s: seq<int>): nat
    decreases |s|
  {
    if |s| < 2 || s[0] == s[1] then 0 else 1 + GoodPairs(s[2..])
  }

  /**
    Reference reading of every pair, errors ignored: the second symbol of
    each pair (Manchester) or the first (inverted Manchester).
   */
  function Rail(s: seq<int>, inverted: bool): (r: seq<int>)
    ensures |r| == |s| / 2
  {
    seq(|s| / 2, k requires 0 <= k < |s| / 2 => if inverted then s[2 * k] else s[2 * k + 1])
  }

  /** Reference Manchester encoder: a bit b becomes the pair (1-b, b), or (b, 1-b) when inverted. */
  function ManchesterEncode(bits: seq<int>, inverted: bool): (r: seq<int>)
    ensures |r| == 2 * |bits|
  {
    if |bits| == 0 then []
    else (if inverted then [bits[0], 1 - bits[0]] else [1 - bits[0], bits[0]])
         + ManchesterEncode(bits[1..], inverted)
  }

  /**
    rf_logger.py `decoder`. The second result stands for the
    "Manchester Decode Error" message: it is set exactly when a Manchester
    decode stops at a pair without transition.
   */
  method Decoder(encodedBits: seq<int>, encoding: int) returns (decodedBits: seq<int>, decodeError: bool)
    requires DecoderDefined(encodedBits, encoding)
    ensures decodedBits == Decode(encodedBits, encoding)
    ensures !IsManchester(encoding) && encoding != MANCH_DIFF ==> decodedBits == encodedBits
    ensures decodeError <==> IsManchester(encoding) && 2 * GoodPairs(encodedBits) < |encodedBits|
  {
    decodeError := false;
    if IsManchester(encoding) {
      decodedBits, decodeError := DecodeManchester(encodedBits, encoding == MANCH_INV);
    } else if encoding == MANCH_DIFF {
      decodedBits := DecodeDifferential(encodedBits);
    } else {
      decodedBits := encodedBits;
    }
  }

  /** The Manchester branch of `decoder`: one symbol per pair until a pair without transition. */
  method DecodeManchester(encodedBits: seq<int>, inverted: bool) returns (decodedBits: seq<int>, decodeError: bool)
    requires ManchesterDefined(encodedBits)
    ensures decodedBits == Manchester(encodedBits, inverted)
    ensures decodeError <==> 2 * GoodPairs(encodedBits) < |encodedBits|
  {
    decodeError := false;
    decodedBits := [];
    var i := 0;
    while i < |encodedBits|
      invariant 0 <= i <= |encodedBits|
      invariant ManchesterDefined(encodedBits[i..])
      invariant decodedBits + Manchester(encodedBits[i..], inverted) == Manchester(encodedBits, inverted)
      invariant 2 * GoodPairs(encodedBits) == i + 2 * GoodPairs(encodedBits[i..])
      invariant !decodeError
    {
      if encodedBits[i] == encodedBits[i + 1] {
        ManchesterStop(encodedBits, i, inverted, decodedBits);
        decodeError := true;
        break;
      } else {
        ManchesterStep(encodedBits, i, inverted, decodedBits);
        if inverted {
          decodedBits := decodedBits + [encodedBits[i]];
        } else {
          decodedBits := decodedBits + [encodedBits[i + 1]];
        }
      }
      i := i + 2;
    }
  }

  /** The differential branch of `decoder`: 1 for each pair of equal symbols, 0 for each other pair. */
  method DecodeDifferential(encodedBits: seq<int>) returns (decodedBits: seq<int>)
    requires |encodedBits| % 2 == 0
    ensures decodedBits == Differential(encodedBits)
  {
    decodedBits := [];
    var i := 0;
    while i < |encodedBits|
      invariant 0 <= i <= |encodedBits| && |encodedBits[i..]| % 2 == 0
      invariant decodedBits + Differential(encodedBits[i..]) == Differential(encodedBits)
    {
      DifferentialStep(encodedBits, i, decodedBits);
      // same level signifies 1
      if encodedBits[i] == encodedBits[i + 1] {
        decodedBits := decodedBits + [1];
      } else {
        decodedBits := decodedBits + [0];
      }
      i := i + 2;
    }
  }

  /** One step of the Manchester loop over a pair with a transition at position i. */
  lemma ManchesterStep(s: seq<int>, i: nat, inverted: bool, decoded: seq<int>)
    requires ManchesterDefined(s) && i + 1 < |s| && s[i] != s[i + 1] && ManchesterDefined(s[i..])
    requires decoded + Manchester(s[i..], inverted) == Manchester(s, inverted)
    requires 2 * GoodPairs(s) == i + 2 * GoodPairs(s[i..])
    ensures ManchesterDefined(s[i + 2..])
    ensures decoded + [if inverted then s[i] else s[i + 1]] + Manchester(s[i + 2..], inverted) == Manchester(s, inverted)
    ensures 2 * GoodPairs(s) == i + 2 + 2 * GoodPairs(s[i + 2..])
  {
    assert s[i..][2..] == s[i + 2..];
    var bit := if inverted then s[i] else s[i + 1];
    var tail := Manchester(s[i + 2..], inverted);
    assert Manchester(s[i..], inverted) == [bit] + tail;
    assert decoded + [bit] + tail == decoded + ([bit] + tail);
  }

  /**
    The Manchester loop stops at a pair without transition: what was
    decoded so far is the whole decode, and fewer than all pairs are good.
   */
  lemma ManchesterStop(s: seq<int>, i: nat, inverted: bool, decoded: seq<int>)
    requires ManchesterDefined(s) && i + 1 < |s| && s[i] == s[i + 1] && ManchesterDefined(s[i..])
    requires decoded + Manchester(s[i..], inverted) == Manchester(s, inverted)
    requires 2 * GoodPairs(s) == i + 2 * GoodPairs(s[i..])
    ensures decoded == Manchester(s, inverted) && 2 * GoodPairs(s) < |s|
  {
    assert Manchester(s[i..], inverted) == [] && GoodPairs(s[i..]) == 0;
    assert decoded + [] == decoded;
  }

  /** A non-empty even length holds a whole pair, and what follows it is even again. */
  lemma EvenStep(n: int)
    requires n > 0 && n % 2 == 0
    ensures n >= 2 && (n - 2) % 2 == 0
  {
  }

  /** One step of the differential loop at an even position i. */
  lemma DifferentialStep(s: seq<int>, i: nat, decoded: seq<int>)
    requires i < |s| && |s| % 2 == 0 && |s[i..]| % 2 == 0
    requires decoded + Differential(s[i..]) == Differential(s)
    ensures i + 1 < |s| && |s[i + 2..]| % 2 == 0
    ensures decoded + [if s[i] == s[i + 1] then 1 else 0] + Differential(s[i + 2..]) == Differential(s)
  {
    EvenStep(|s[i..]|);
    assert s[i..][2..] == s[i + 2..];
    var bit := if s[i] == s[i + 1] then 1 else 0;
    var tail := Differential(s[i + 2..]);
    assert Differential(s[i..]) == [bit] + tail;
    assert decoded + [bit] + tail == decoded + ([bit] + tail);
  }

  /**
    The decode stops at the first pair without transition: every pair
    before GoodPairs(s) differs, and when the decode stops short of the end
    the pair it stopped at exists and has equal symbols.
   */
  lemma {:induction false} ManchesterStopsAtFirstBadPair(s: seq<int>)
    requires ManchesterDefined(s)
    ensures GoodPairs(s) <= |s| / 2
    ensures forall k :: 0 <= k < GoodPairs(s) ==> PairDiffers(s, k)
    ensures 2 * GoodPairs(s) < |s| ==> 2 * GoodPairs(s) + 1 < |s| && !PairDiffers(s, GoodPairs(s))
    decreases |s|
  {
    if |s| > 0 && s[0] != s[1] {
      var t := s[2..];
      ManchesterStopsAtFirstBadPair(t);
      var g := GoodPairs(t);
      forall k | 0 <= k < g + 1 ensures PairDiffers(s, k) {
        if k > 0 {
          PairShift(s, k, false);
        }
      }
      if 2 * GoodPairs(s) < |s| {
        PairShift(s, g + 1, false);
      }
    }
  }

  /** One output bit per good pair. */
  lemma {:induction false} ManchesterLength(s: seq<int>, inverted: bool)
    requires ManchesterDefined(s)
    ensures |Manchester(s, inverted)| == GoodPairs(s) <= |s| / 2
    decreases |s|
  {
    if |s| > 0 && s[0] != s[1] {
      ManchesterLength(s[2..], inverted);
    }
  }

  /**
    A Manchester decode is the error-free reading of the good pairs: the
    first GoodPairs(s) bits of the rail.
   */
  lemma {:induction false} ManchesterIsRailPrefix(s: seq<int>, inverted: bool)
    requires ManchesterDefined(s)
    ensures GoodPairs(s) <= |s| / 2
    ensures Manchester(s, inverted) == Rail(s, inverted)[..GoodPairs(s)]
    decreases |s|
  {
    ManchesterLength(s, inverted);
    if |s| > 0 && s[0] != s[1] {
      var t := s[2..];
      ManchesterIsRailPrefix(t, inverted);
      var m := Manchester(s, inverted);
      var r := Rail(s, inverted)[..GoodPairs(s)];
      assert m == [m[0]] + Manchester(t, inverted);
      forall k | 0 <= k < |m| ensures m[k] == r[k] {
        if k > 0 {
          PairShift(s, k, inverted);
        }
      }
    }
  }

  /** Dropping the first pair moves pair k to position k - 1. */
  lemma PairShift(s: seq<int>, k: nat, inverted: bool)
    requires |s| >= 2 && k >= 1
    ensures PairDiffers(s[2..], k - 1) <==> PairDiffers(s, k)
    ensures 2 * k + 1 < |s| ==> Rail(s[2..], inverted)[k - 1] == Rail(s, inverted)[k]
  {
    var t := s[2..];
    if 2 * k + 1 < |s| {
      assert t[2 * (k - 1)] == s[2 * k] && t[2 * (k - 1) + 1] == s[2 * k + 1];
    }
  }

  /**
    On even-length input whose every pair carries a transition, the
    Manchester decode never stops early: it is the whole rail, len/2 bits,
    and raises no decode error.
   */
  lemma {:induction false} ManchesterAllPairsValid(s: seq<int>, inverted: bool)
    requires |s| % 2 == 0
    requires forall k :: 0 <= k < |s| / 2 ==> PairDiffers(s, k)
    ensures ManchesterDefined(s) && GoodPairs(s) == |s| / 2
    ensures Manchester(s, inverted) == Rail(s, inverted)
    decreases |s|
  {
    if |s| > 0 {
      var t := s[2..];
      assert PairDiffers(s, 0);
      forall k | 0 <= k < |t| / 2 ensures PairDiffers(t, k) {
        assert PairDiffers(s, k + 1);
        PairShift(s, k + 1, inverted);
      }
      ManchesterAllPairsValid(t, inverted);
      ManchesterIsRailPrefix(s, inverted);
    }
  }

  /**
    For a valid 0/1 Manchester signal the two conventions read the two
    halves of every pair, so their results are complementary bit by bit.
   */
  lemma ManchesterConventionsComplementary(s: seq<int>)
    requires AllBits(s) && |s| % 2 == 0
    requires forall k :: 0 <= k < |s| / 2 ==> PairDiffers(s, k)
    ensures ManchesterDefined(s)
    ensures |Manchester(s, false)| == |Manchester(s, true)| == |s| / 2
    ensures forall k :: 0 <= k < |s| / 2 ==> Manchester(s, false)[k] == 1 - Manchester(s, true)[k]
  {
    ManchesterAllPairsValid(s, false);
    ManchesterAllPairsValid(s, true);
    forall k | 0 <= k < |s| / 2 ensures Manchester(s, false)[k] == 1 - Manchester(s, true)[k] {
      assert PairDiffers(s, k);
      assert IsBit(s[2 * k]) && IsBit(s[2 * k + 1]);
    }
  }

  /** Decoding a reference-encoded bit list in the same convention gives it back. */
  lemma {:induction false} ManchesterDecodesEncoding(bits: seq<int>, inverted: bool)
    requires AllBits(bits)
    ensures ManchesterDefined(ManchesterEncode(bits, inverted))
    ensures Manchester(ManchesterEncode(bits, inverted), inverted) == bits
    ensures GoodPairs(ManchesterEncode(bits, inverted)) == |bits|
    decreases |bits|
  {
    if bits != [] {
      var e := ManchesterEncode(bits, inverted);
      assert IsBit(bits[0]);
      assert AllBits(bits[1..]) by {
        forall i | 0 <= i < |bits| - 1 ensures IsBit(bits[1..][i]) {
          assert bits[1..][i] == bits[i + 1];
        }
      }
      ManchesterDecodesEncoding(bits[1..], inverted);
      assert e[2..] == ManchesterEncode(bits[1..], inverted);
      assert bits == [bits[0]] + bits[1..];
    }
  }

  /** Dropping the first pair of a valid 0/1 Manchester signal leaves a valid signal. */
  lemma ValidTail(s: seq<int>)
    requires AllBits(s) && |s| % 2 == 0 && |s| > 0
    requires forall k :: 0 <= k < |s| / 2 ==> PairDiffers(s, k)
    ensures IsBit(s[0]) && IsBit(s[1]) && s[0] != s[1]
    ensures AllBits(s[2..]) && |s[2..]| % 2 == 0
    ensures forall k :: 0 <= k < |s[2..]| / 2 ==> PairDiffers(s[2..], k)
  {
    var t := s[2..];
    assert PairDiffers(s, 0) && IsBit(s[0]) && IsBit(s[1]);
    assert AllBits(t) by {
      forall i | 0 <= i < |t| ensures IsBit(t[i]) {
        assert t[i] == s[i + 2];
      }
    }
    forall k | 0 <= k < |t| / 2 ensures PairDiffers(t, k) {
      assert PairDiffers(s, k + 1);
      PairShift(s, k + 1, false);
    }
  }

  /** A valid 0/1 Manchester signal is the reference encoding of its decode. */
  lemma {:induction false} ManchesterEncodesDecoding(s: seq<int>, inverted: bool)
    requires AllBits(s) && |s| % 2 == 0
    requires forall k :: 0 <= k < |s| / 2 ==> PairDiffers(s, k)
    ensures ManchesterDefined(s)
    ensures ManchesterEncode(Manchester(s, inverted), inverted) == s
    decreases |s|
  {
    assert ManchesterDefined(s) by {
      ManchesterAllPairsValid(s, inverted);
    }
    if |s| > 0 {
      var t := s[2..];
      ValidTail(s);
      ManchesterEncodesDecoding(t, inverted);
      var b := if inverted then s[0] else s[1];
      var rest := Manchester(t, inverted);
      assert Manchester(s, inverted) == [b] + rest;
      var p := if inverted then [b, 1 - b] else [1 - b, b];
      assert p == s[..2];
      assert ([b] + rest)[1..] == rest;
      assert ManchesterEncode([b] + rest, inverted) == p + ManchesterEncode(rest, inverted);
      assert s == s[..2] + t;
    }
  }

  /**
    Differential decoding of even-length input never stops early: one 0/1
    bit per pair, 1 exactly when the pair's two symbols are equal.
   */
  lemma {:induction false} DifferentialAt(s: seq<int>)
    requires |s| % 2 == 0
    ensures |Differential(s)| == |s| / 2 && AllBits(Differential(s))
    ensures forall k :: 0 <= k < |s| / 2 ==> (Differential(s)[k] == 1 <==> !PairDiffers(s, k))
    decreases |s|
  {
    if |s| > 0 {
      var t := s[2..];
      DifferentialAt(t);
      var d := Differential(s);
      forall k | 0 <= k < |s| / 2 ensures IsBit(d[k]) && (d[k] == 1 <==> !PairDiffers(s, k)) {
        if k > 0 {
          assert d[k] == Differential(t)[k - 1];
          assert PairDiffers(t, k - 1) <==> PairDiffers(s, k);
        }
      }
    }
  }

  /**
    Worked cases: one signal read under both conventions, a signal whose
    first pair has no transition, a differential signal, and NRZ.
   */
  lemma DecoderExamples()
    ensures DecoderDefined([0, 1, 1, 0, 0, 1, 1, 0], MANCH)
    ensures Decode([0, 1, 1, 0, 0, 1, 1, 0], MANCH) == [1, 0, 1, 0]
    ensures Decode([0, 1, 1, 0, 0, 1, 1, 0], MANCH_INV) == [0, 1, 0, 1]
    ensures GoodPairs([0, 1, 1, 0, 0, 1, 1, 0]) == 4
    ensures DecoderDefined([1, 1, 0, 1], MANCH) && Decode([1, 1, 0, 1], MANCH) == []
    ensures 2 * GoodPairs([1, 1, 0, 1]) < 4
    ensures Decode([0, 0, 0, 1, 1, 1], MANCH_DIFF) == [1, 0, 1]
    ensures Decode([1, 0, 1], NRZ) == [1, 0, 1]
  {
    var s := [0, 1, 1, 0, 0, 1, 1, 0];
    assert s[2..] == [1, 0, 0, 1, 1, 0];
    assert s[2..][2..] == [0, 1, 1, 0];
    assert s[2..][2..][2..] == [1, 0];
    assert s[2..][2..][2..][2..] == [];
    var d := [0, 0, 0, 1, 1, 1];
    assert d[2..] == [0, 1, 1, 1];
    assert d[2..][2..] == [1, 1];
    assert d[2..][2..][2..] == [];
  }
}
