/**
 * The bitmap primitives the block store relies on: single bits inside a byte,
 * the bit vector a run of bytes stands for, the first-zero search and the
 * population count.
 *
 * The bitmap library itself (include/bitmap.h) is not part of this model; its
 * operations are given their documented meaning here. Bit `i` of a bitmap is
 * bit `i % 8` of byte `i / 8`, least significant bit first.
 */
module Bitmap {
  import opened Config

  // ---------------------------------------------------------------------
  // Bits inside one byte

  /** The byte with only bit `s` set. */
  function Mask(s: nat): Byte
    requires s < 8
  {
    [0x01, 0x02, 0x04, 0x08, 0x10, 0x20, 0x40, 0x80][s]
  }

  /** Bit `s` of byte `x` is set. */
  predicate BitOf(x: Byte, s: nat)
    requires s < 8
  {
    x & Mask(s) != 0
  }

  /** `x` with bit `s` set (`bitmap_set` on one byte). */
  function WithBit(x: Byte, s: nat): (y: Byte)
    requires s < 8
    ensures forall t :: 0 <= t < 8 ==> BitOf(y, t) == (t == s || BitOf(x, t))
  {
    var y := x | Mask(s);
    forall t | 0 <= t < 8 ensures BitOf(y, t) == (t == s || BitOf(x, t)) {
      MaskAt(x, s, t);
    }
    y
  }

  /** `x` with bit `s` cleared (`bitmap_reset` on one byte). */
  function WithoutBit(x: Byte, s: nat): (y: Byte)
    requires s < 8
    ensures forall t :: 0 <= t < 8 ==> BitOf(y, t) == (t != s && BitOf(x, t))
  {
    var y := x & !Mask(s);
    forall t | 0 <= t < 8 ensures BitOf(y, t) == (t != s && BitOf(x, t)) {
      MaskAt(x, s, t);
    }
    y
  }

  lemma MaskAt(x: Byte, s: nat, t: nat)
    requires s < 8 && t < 8
    ensures BitOf(x | Mask(s), t) == (t == s || BitOf(x, t))
    ensures BitOf(x & !Mask(s), t) == (t != s && BitOf(x, t))
  {
    MasksDisjoint(s, t);
  }

  /** Distinct bits have disjoint masks. */
  lemma MasksDisjoint(s: nat, t: nat)
    requires s < 8 && t < 8
    ensures Mask(t) != 0
    ensures s != t ==> Mask(s) & Mask(t) == 0
  {
  }

  /** A byte is determined by its eight bits. */
  lemma ByteExtensional(x: Byte, y: Byte)
    requires forall t :: 0 <= t < 8 ==> BitOf(x, t) == BitOf(y, t)
    ensures x == y
  {
    assert BitOf(x, 0) == BitOf(y, 0) && BitOf(x, 1) == BitOf(y, 1);
    assert BitOf(x, 2) == BitOf(y, 2) && BitOf(x, 3) == BitOf(y, 3);
    assert BitOf(x, 4) == BitOf(y, 4) && BitOf(x, 5) == BitOf(y, 5);
    assert BitOf(x, 6) == BitOf(y, 6) && BitOf(x, 7) == BitOf(y, 7);
  }

  // ---------------------------------------------------------------------
  // Bit vectors

  /** The first `n` bits held by `bytes`. */
  function Unpack(bytes: seq<Byte>, n: nat): (bits: seq<bool>)
    requires n <= 8 * |bytes|
    ensures |bits| == n
  {
    seq(n, i => 0 <= i < n && BitOf(bytes[i / 8], i % 8))
  }

  /**
   * `bitmap_ffz`: the lowest index whose bit is clear, or `|bits|` when every
   * bit is set.
   */
  function FirstZero(bits: seq<bool>): (r: nat)
    ensures r <= |bits|
    ensures r < |bits| ==> !bits[r]
    ensures forall j :: 0 <= j < r ==> bits[j]
  {
    if |bits| == 0 then 0
    else if !bits[0] then 0
    else 1 + FirstZero(bits[1..])
  }

  /** `bitmap_total_set`: the number of set bits. */
  function CountSet(bits: seq<bool>): (r: nat)
    ensures r <= |bits|
  {
    if |bits| == 0 then 0
    else CountSet(bits[..|bits| - 1]) + (if bits[|bits| - 1] then 1 else 0)
  }

  /** The bit vector whose set bits are exactly those in `[lo, hi)`. */
  function Interval(n: nat, lo: nat, hi: nat): seq<bool> {
    seq(n, j => lo <= j < hi)
  }

  /** Changing one bit changes the population count by exactly that bit. */
  lemma {:induction false} CountSetUpdate(bits: seq<bool>, i: nat, v: bool)
    requires i < |bits|
    ensures CountSet(bits[i := v]) ==
            CountSet(bits) - (if bits[i] then 1 else 0) + (if v then 1 else 0)
    decreases |bits|
  {
    var n := |bits| - 1;
    var u := bits[i := v];
    if i < n {
      assert u[..n] == bits[..n][i := v];
      CountSetUpdate(bits[..n], i, v);
    } else {
      assert u[..n] == bits[..n];
    }
  }

  /** Counting one more bit of a prefix adds that bit. */
  lemma CountSetPrefixStep(bits: seq<bool>, i: nat)
    requires i < |bits|
    ensures CountSet(bits[..i + 1]) == CountSet(bits[..i]) + (if bits[i] then 1 else 0)
  {
    assert bits[..i + 1][..i] == bits[..i];
  }

  /** The population count reaches the length exactly when every bit is set. */
  lemma {:induction false} CountSetFull(bits: seq<bool>)
    ensures CountSet(bits) == |bits| <==> forall j :: 0 <= j < |bits| ==> bits[j]
    decreases |bits|
  {
    if |bits| > 0 {
      var n := |bits| - 1;
      CountSetFull(bits[..n]);
      assert forall j :: 0 <= j < n ==> bits[..n][j] == bits[j];
    }
  }

  /** There is no clear bit (allocation is exhausted) exactly when the count is full. */
  lemma FirstZeroExhausted(bits: seq<bool>)
    ensures FirstZero(bits) == |bits| <==> CountSet(bits) == |bits|
  {
    CountSetFull(bits);
  }

  /** The population count of an interval is its width. */
  lemma {:induction false} CountInterval(n: nat, lo: nat, hi: nat)
    requires lo <= hi <= n
    ensures CountSet(Interval(n, lo, hi)) == hi - lo
  {
    CountIntervalPrefix(n, lo, hi);
  }

  lemma {:induction false} CountIntervalPrefix(n: nat, lo: nat, hi: nat)
    requires lo <= hi
    ensures CountSet(Interval(n, lo, hi)) ==
            if n <= lo then 0 else if n <= hi then n - lo else hi - lo
  {
    if n > 0 {
      assert Interval(n, lo, hi)[..n - 1] == Interval(n - 1, lo, hi);
      CountIntervalPrefix(n - 1, lo, hi);
    }
  }
}
