/**
 * The 32-bit rolling string hash behind generated article ids: a polynomial in the
 * string's UTF-16 code units with multiplier 31, wrapped to a signed 32-bit integer
 * after every step and rendered as the lower-case hexadecimal of its absolute value.
 */
module Hash {
  import opened Numerals

  const TWO_31: int := 0x8000_0000
  const TWO_32: int := 0x1_0000_0000

  predicate IsInt32(x: int) {
    -TWO_31 <= x < TWO_31
  }

  /** ECMAScript ToInt32 on an integral value: the representative of `x` modulo 2^32 in [-2^31, 2^31). */
  function ToInt32(x: int): (r: int)
    ensures IsInt32(r)
    ensures (x - r) % TWO_32 == 0
    ensures IsInt32(x) ==> r == x
  {
    var m := x % TWO_32;
    if m >= TWO_31 then m - TWO_32 else m
  }

  /** ToInt32 only depends on its argument modulo 2^32. */
  lemma ToInt32Congruent(x: int, y: int)
    requires (x - y) % TWO_32 == 0
    ensures ToInt32(x) == ToInt32(y)
  {
    var k := (x - y) / TWO_32;
    assert x == y + k * TWO_32;
    assert x % TWO_32 == y % TWO_32;
  }

  /** Congruence modulo 2^32 is preserved by the step's affine map `x * 31 + u`. */
  lemma CongruentTimes31(a: int, b: int, u: int)
    requires (a - b) % TWO_32 == 0
    ensures ToInt32(a * 31 + u) == ToInt32(b * 31 + u)
  {
    var k := (a - b) / TWO_32;
    assert a - b == k * TWO_32;
    assert (a * 31 + u) - (b * 31 + u) == (k * 31) * TWO_32;
    MultipleMod(k * 31);
    ToInt32Congruent(a * 31 + u, b * 31 + u);
  }

  lemma MultipleMod(k: int)
    ensures (k * TWO_32) % TWO_32 == 0
  {
  }

  /** The UTF-16 encoding of a string: the units JavaScript's `length` counts and `charCodeAt` reads. */
  function CodeUnits(s: string): (r: seq<int>)
    ensures forall i :: 0 <= i < |r| ==> 0 <= r[i] < 0x1_0000
    ensures |r| >= |s|
    decreases |s|
  {
    if s == [] then []
    else
      var v := s[0] as int;
      var head := if v < 0x1_0000 then [v] else [0xD800 + (v - 0x1_0000) / 0x400, 0xDC00 + (v - 0x1_0000) % 0x400];
      head + CodeUnits(s[1..])
  }

  /** A string of characters from the Basic Multilingual Plane is one unit per character. */
  lemma {:induction false} CodeUnitsBmp(s: string)
    requires forall i :: 0 <= i < |s| ==> (s[i] as int) < 0x1_0000
    ensures CodeUnits(s) == seq(|s|, i requires 0 <= i < |s| => s[i] as int)
    decreases |s|
  {
    if s != [] {
      CodeUnitsBmp(s[1..]);
    }
  }

  /** A character above U+FFFF is a surrogate pair: a high and a low unit that recombine to it. */
  lemma CodeUnitsAstral(c: char)
    requires c as int >= 0x1_0000
    ensures |CodeUnits([c])| == 2
    ensures 0xD800 <= CodeUnits([c])[0] < 0xDC00 && 0xDC00 <= CodeUnits([c])[1] < 0xE000
    ensures (CodeUnits([c])[0] - 0xD800) * 0x400 + (CodeUnits([c])[1] - 0xDC00) + 0x1_0000 == c as int
  {
    assert [c][1..] == [];
  }

  /** The encoding of a concatenation is the concatenation of the encodings. */
  lemma {:induction false} CodeUnitsConcat(a: string, b: string)
    ensures CodeUnits(a + b) == CodeUnits(a) + CodeUnits(b)
    decreases |a|
  {
    if a == [] {
      assert a + b == b;
    } else {
      assert (a + b)[0] == a[0];
      assert (a + b)[1..] == a[1..] + b;
      CodeUnitsConcat(a[1..], b);
    }
  }

  /** One iteration of the source loop as written: `hash = (hash << 5) - hash + unit; hash |= 0`. */
  function Step(hash: int, unit: int): (r: int)
    ensures IsInt32(r)
  {
    var shifted := ToInt32(ToInt32(hash) * 32);
    ToInt32(shifted - hash + unit)
  }

  /** The shift-and-subtract step is multiplication by 31, wrapped. */
  lemma StepIsTimes31(hash: int, unit: int)
    requires IsInt32(hash)
    ensures Step(hash, unit) == ToInt32(hash * 31 + unit)
  {
    var shifted := ToInt32(hash * 32);
    ToInt32Congruent(shifted - hash + unit, hash * 31 + unit);
  }

  /** The loop state after consuming `units` from a zero start. */
  function HashState(units: seq<int>): (h: int)
    ensures IsInt32(h)
    decreases |units|
  {
    if units == [] then 0 else Step(HashState(units[..|units| - 1]), units[|units| - 1])
  }

  /** The unwrapped polynomial: sum of units[k] * 31^(n-1-k). */
  function Poly(units: seq<int>): int
    decreases |units|
  {
    if units == [] then 0 else Poly(units[..|units| - 1]) * 31 + units[|units| - 1]
  }

  /** Wrapping after every step equals wrapping once at the end. */
  lemma {:induction false} HashStateIsWrappedPoly(units: seq<int>)
    ensures HashState(units) == ToInt32(Poly(units))
    decreases |units|
  {
    if units != [] {
      var front := units[..|units| - 1];
      var u := units[|units| - 1];
      var h := HashState(front);
      HashStateIsWrappedPoly(front);
      StepIsTimes31(h, u);
      CongruentTimes31(Poly(front), h, u);
    }
  }

  function Abs(x: int): nat {
    if x < 0 then -x else x
  }

  /**
   * `simpleHash(input)`: the lower-case hex of |h| where h is the wrapped polynomial of the
   * input's code units; |h| lies in [0, 2^31] (2^31 itself for h = -2^31, as `Math.abs` gives).
   */
  function SimpleHash(input: string): (r: string)
    ensures forall i :: 0 <= i < |r| ==> IsDigit(r[i], 16)
    ensures FromDigits(r, 16) == Abs(ToInt32(Poly(CodeUnits(input))))
    ensures FromDigits(r, 16) <= TWO_31
    ensures Canonical(r)
  {
    HashStateIsWrappedPoly(CodeUnits(input));
    Hex(Abs(HashState(CodeUnits(input))))
  }

  /** The source's loop over the code units, computing the same hash string. */
  method SimpleHashLoop(input: string) returns (r: string)
    ensures r == SimpleHash(input)
  {
    var units := CodeUnits(input);
    var hash := 0;
    var i := 0;
    while i < |units|
      invariant 0 <= i <= |units|
      invariant hash == HashState(units[..i])
    {
      assert units[..i + 1][..i] == units[..i];
      hash := Step(hash, units[i]);
      i := i + 1;
    }
    assert units[..i] == units;
    r := Hex(Abs(hash));
  }
}
