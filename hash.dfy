/** The string hash of getHashCode: `hashCode = (hashCode << 5) - hashCode + c`
    followed by `hashCode |= 0`, in JavaScript's 32-bit integer semantics. */
module Hashing {

  const TwoTo31: int := 0x8000_0000
  const TwoTo32: int := 0x1_0000_0000

  /** ECMAScript ToInt32: the signed 32-bit integer congruent to `x` modulo 2^32. */
  function ToInt32(x: int): (r: int)
    ensures -TwoTo31 <= r < TwoTo31
  {
    x - TwoTo32 * ((x + TwoTo31) / TwoTo32)
  }

  /** ToInt32 is the only value in range congruent to its argument. */
  lemma ToInt32Unique(x: int, r: int, k: int)
    requires -TwoTo31 <= r < TwoTo31 && x == r + TwoTo32 * k
    ensures ToInt32(x) == r
  {
    assert x + TwoTo31 == TwoTo32 * k + (r + TwoTo31);
    assert (x + TwoTo31) / TwoTo32 == k;
  }

  /** ToInt32 leaves a value already in range as it is. */
  lemma ToInt32Small(x: int)
    requires -TwoTo31 <= x < TwoTo31
    ensures ToInt32(x) == x
  {
    ToInt32Unique(x, x, 0);
  }

  /** One step of the loop: `h << 5` is ToInt32(h * 32) on an int32 `h`; the final
      `|= 0` truncates to 32 bits again. `charCodeAt` is the character's code. */
  function HashStep(h: int, c: char): int {
    ToInt32(ToInt32(h * 32) - h + c as int)
  }

  /** The hash of `s`: the loop's accumulator after reading all of `s`, from 0. */
  function HashOf(s: string): (h: int)
    ensures -TwoTo31 <= h < TwoTo31
    decreases |s|
  {
    if s == [] then 0 else HashStep(HashOf(s[..|s| - 1]), s[|s| - 1])
  }

  /** The hash loop of getHashCode (identical in b03, b05 and b06). */
  method StringHash(s: string) returns (hashCode: int)
    ensures hashCode == HashOf(s)
  {
    hashCode := 0;
    for i := 0 to |s|
      invariant hashCode == HashOf(s[..i])
    {
      var c := s[i];
      assert s[..i + 1][..i] == s[..i];
      hashCode := ToInt32(ToInt32(hashCode * 32) - hashCode + c as int);
    }
    assert s[..|s|] == s;
  }

  /** The same hash with no truncation: the polynomial sum of c * 31^k. */
  function PolynomialHash(s: string): int
    decreases |s|
  {
    if s == [] then 0 else 31 * PolynomialHash(s[..|s| - 1]) + s[|s| - 1] as int
  }

  /** Shift-and-subtract with truncation at every step is `h * 31 + c` truncated once. */
  lemma HashStepIsMultiplyAdd(h: int, c: char)
    ensures HashStep(h, c) == ToInt32(31 * h + c as int)
  {
    var x := h * 32;
    var q1 := (x + TwoTo31) / TwoTo32;
    var y := ToInt32(x) - h + c as int;
    var q2 := (y + TwoTo31) / TwoTo32;
    assert ToInt32(x) == x - TwoTo32 * q1;
    assert HashStep(h, c) == y - TwoTo32 * q2;
    ToInt32Unique(31 * h + c as int, HashStep(h, c), q1 + q2);
  }

  /** Truncating at every step gives the same 32-bit value as truncating the exact
      polynomial hash at the end. */
  lemma {:induction false} HashIsTruncatedPolynomial(s: string)
    ensures HashOf(s) == ToInt32(PolynomialHash(s))
    decreases |s|
  {
    if s != [] {
      var p := s[..|s| - 1];
      var c := s[|s| - 1];
      HashIsTruncatedPolynomial(p);
      var P := PolynomialHash(p);
      var q := (P + TwoTo31) / TwoTo32;
      assert HashOf(p) == P - TwoTo32 * q;
      HashStepIsMultiplyAdd(HashOf(p), c);
      var z := 31 * HashOf(p) + c as int;
      var q' := (z + TwoTo31) / TwoTo32;
      assert HashOf(s) == z - TwoTo32 * q';
      assert 31 * P + c as int == HashOf(s) + TwoTo32 * (31 * q + q');
      ToInt32Unique(31 * P + c as int, HashOf(s), 31 * q + q');
    }
  }
}
