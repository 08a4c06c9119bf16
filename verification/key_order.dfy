/**
 * Keys and values of the tree: byte strings as Java holds them (arrays of
 * signed `byte`), and the key ordering implemented by `Key.compare`.
 *
 * `Key.compare` subtracts in two different directions. At the first byte
 * where the keys differ it returns `other - this`. When one key is a prefix
 * of the other it returns `this.length - other.length`. So "compare < 0"
 * does not mean "lexicographically smaller", as the doc comment says. It
 * means "a strict prefix of the other key, or the larger byte at the first
 * difference". That relation is still a strict total order
 * (`ComparisonTransitive`, `ComparisonTotal`), and the tree relies only on
 * that.
 */
module KeyOrder {

  /** A Java `byte`: a signed 8-bit integer. */
  newtype Byte = x: int | -128 <= x < 128

  /** The bytes of a key (the array wrapped by `Key`). */
  type Key = seq<Byte>

  /** The bytes of a value; the tree never looks inside a value. */
  type Value = seq<Byte>

  /** `b & 0xff`: the same bit pattern read as an unsigned number. */
  function Unsigned(b: Byte): (u: int)
    ensures 0 <= u < 256
    ensures u % 256 == (b as int) % 256
  {
    if b < 0 then b as int + 256 else b as int
  }

  /** `Key.min`: the smaller of two lengths. */
  function Min(a: int, b: int): (m: int)
    ensures m <= a && m <= b
    ensures m == a || m == b
  {
    if a < b then a else b
  }

  /**
   * The value `me.compare(other)` returns, defined recursively: the first
   * non-zero difference `other[i] - me[i]` of unsigned bytes, or else the
   * difference of the lengths.
   */
  function Comparison(me: Key, other: Key): int
    decreases |me|
  {
    if |me| == 0 || |other| == 0 then |me| - |other|
    else if Unsigned(other[0]) != Unsigned(me[0]) then Unsigned(other[0]) - Unsigned(me[0])
    else Comparison(me[1..], other[1..])
  }

  /** `Key.compare`: the loop over the common prefix, with its early return. */
  method Compare(me: Key, other: Key) returns (cmp: int)
    ensures cmp == Comparison(me, other)
  {
    var len := Min(|me|, |other|);
    for i := 0 to len
      invariant Comparison(me, other) == Comparison(me[i..], other[i..])
    {
      cmp := Unsigned(other[i]) - Unsigned(me[i]);
      if cmp != 0 {
        return;
      }
      assert me[i..][1..] == me[i + 1..] && other[i..][1..] == other[i + 1..];
    }
    cmp := |me| - |other|;
  }

  /** Reading a byte as unsigned loses nothing: distinct bytes stay distinct. */
  lemma UnsignedInjective(a: Byte, b: Byte)
    ensures Unsigned(a) == Unsigned(b) <==> a == b
  {
  }

  /** The comparison is zero exactly for equal keys (same length, same bytes). */
  lemma {:induction false} ComparisonZeroIffEqual(a: Key, b: Key)
    ensures Comparison(a, b) == 0 <==> a == b
    decreases |a|
  {
    if |a| != 0 && |b| != 0 {
      UnsignedInjective(a[0], b[0]);
      ComparisonZeroIffEqual(a[1..], b[1..]);
      if a[0] == b[0] && a[1..] == b[1..] {
        assert a == [a[0]] + a[1..] && b == [b[0]] + b[1..];
      }
    }
  }

  /** Swapping the arguments negates the result. */
  lemma {:induction false} ComparisonAntisymmetric(a: Key, b: Key)
    ensures Comparison(a, b) == -Comparison(b, a)
    decreases |a|
  {
    if |a| != 0 && |b| != 0 && Unsigned(a[0]) == Unsigned(b[0]) {
      ComparisonAntisymmetric(a[1..], b[1..]);
    }
  }

  /**
   * At the first index where the keys differ, the result is the difference
   * `other[i] - me[i]` of the unsigned bytes: non-zero, within [-255, 255],
   * and negative when `me` holds the LARGER byte.
   */
  lemma {:induction false} ComparisonAtFirstDifference(me: Key, other: Key, i: nat)
    requires i < |me| && i < |other|
    requires me[..i] == other[..i] && me[i] != other[i]
    ensures Comparison(me, other) == Unsigned(other[i]) - Unsigned(me[i])
    ensures Comparison(me, other) != 0
    ensures -255 <= Comparison(me, other) <= 255
    decreases i
  {
    UnsignedInjective(me[i], other[i]);
    if i > 0 {
      assert me[0] == me[..i][0] == other[..i][0] == other[0];
      assert me[1..][..i - 1] == me[..i][1..] == other[..i][1..] == other[1..][..i - 1];
      ComparisonAtFirstDifference(me[1..], other[1..], i - 1);
    }
  }

  /**
   * When one key is a prefix of the other the result is the difference of
   * the lengths, so the shorter key compares negative.
   */
  lemma {:induction false} ComparisonOfPrefix(me: Key, other: Key)
    requires me <= other || other <= me
    ensures Comparison(me, other) == |me| - |other|
    decreases |me|
  {
    if |me| != 0 && |other| != 0 {
      assert me[0] == other[0];
      assert me[1..] <= other[1..] || other[1..] <= me[1..];
      ComparisonOfPrefix(me[1..], other[1..]);
    }
  }

  /** "compares negative" is transitive. */
  lemma {:induction false} ComparisonTransitive(a: Key, b: Key, c: Key)
    requires Comparison(a, b) < 0 && Comparison(b, c) < 0
    ensures Comparison(a, c) < 0
    decreases |a|
  {
    if |a| != 0 && |b| != 0 && |c| != 0
       && Unsigned(a[0]) == Unsigned(b[0]) && Unsigned(b[0]) == Unsigned(c[0])
    {
      ComparisonTransitive(a[1..], b[1..], c[1..]);
    }
  }

  /** Trichotomy: two keys are equal, or exactly one compares negative to the other. */
  lemma ComparisonTotal(a: Key, b: Key)
    ensures a == b || Comparison(a, b) < 0 || Comparison(b, a) < 0
    ensures !(Comparison(a, b) < 0 && Comparison(b, a) < 0)
    ensures Comparison(a, a) == 0
  {
    ComparisonZeroIffEqual(a, b);
    ComparisonZeroIffEqual(a, a);
    ComparisonAntisymmetric(a, b);
  }
}
