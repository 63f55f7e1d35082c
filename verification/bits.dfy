/**
  Binary values shared by the decoding stages: what counts as a bit, the
  most-significant-bit-first value of a bit list, and its inverse.
 */
module Bits {

  /** A strict bit: the integer 0 or 1. */
  predicate IsBit(x: int) {
    x == 0 || x == 1
  }

  predicate AllBits(s: seq<int>) {
    forall i :: 0 <= i < |s| ==> IsBit(s[i])
  }

  /** Every slice of a 0/1 list is a 0/1 list. */
  lemma AllBitsSlice(s: seq<int>, lo: nat, hi: nat)
    requires AllBits(s) && lo <= hi <= |s|
    ensures AllBits(s[lo..hi])
  {
    var t := s[lo..hi];
    forall i | 0 <= i < |t| ensures IsBit(t[i]) {
      assert t[i] == s[lo + i];
    }
  }

  /** A non-empty list is its front followed by its last element. */
  lemma SplitLast(s: seq<int>)
    requires |s| > 0
    ensures s == s[..|s| - 1] + [s[|s| - 1]]
  {
  }

  function Pow2(n: nat): (r: nat)
    ensures r >= 1
  {
    if n == 0 then 1 else 2 * Pow2(n - 1)
  }

  /** The value of a bit list read most significant bit first. */
  function BinVal(s: seq<int>): int
  {
    if |s| == 0 then 0 else 2 * BinVal(s[..|s| - 1]) + s[|s| - 1]
  }

  /** The n low-order bits of v, most significant first (reference encoder). */
  function ToBits(v: int, n: nat): (r: seq<int>)
    ensures |r| == n && AllBits(r)
    decreases n
  {
    if n == 0 then [] else ToBits(v / 2, n - 1) + [v % 2]
  }

  lemma {:induction false} BinValBounds(s: seq<int>)
    requires AllBits(s)
    ensures 0 <= BinVal(s) < Pow2(|s|)
  {
    if s != [] {
      var init := s[..|s| - 1];
      AllBitsSlice(s, 0, |s| - 1);
      BinValBounds(init);
    }
  }

  /** Re-encoding the value of a bit list in as many bits gives the list back. */
  lemma {:induction false} ToBitsOfBinVal(s: seq<int>)
    requires AllBits(s)
    ensures ToBits(BinVal(s), |s|) == s
  {
    if s != [] {
      var init := s[..|s| - 1];
      AllBitsSlice(s, 0, |s| - 1);
      ToBitsOfBinVal(init);
      var v := BinVal(s);
      assert v / 2 == BinVal(init) && v % 2 == s[|s| - 1];
      assert s == init + [s[|s| - 1]];
    }
  }

  /** Every value below 2^n is the value of its own n-bit encoding. */
  lemma {:induction false} BinValOfToBits(v: int, n: nat)
    requires 0 <= v < Pow2(n)
    ensures BinVal(ToBits(v, n)) == v
  {
    if n > 0 {
      BinValOfToBits(v / 2, n - 1);
      var r := ToBits(v, n);
      assert r[..|r| - 1] == ToBits(v / 2, n - 1);
    }
  }
}
