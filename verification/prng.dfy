/** The seed hash (`hashSeed`, 32-bit FNV-1a over UTF-16 code units) and the
    seeded generator (`mulberry32`) behind the daily pick.

    JavaScript evaluates these with `Math.imul`, `^`, `|`, `>>>` and `+`
    followed by a 32-bit conversion, all of which are arithmetic modulo 2^32
    on the same bit pattern; `bv32` arithmetic is exactly that. */
module Prng {

  /** A UTF-16 code unit, the value `charCodeAt` returns. */
  type CodeUnit = x: int | 0 <= x < 0x10000

  /** The UTF-16 code units of one character (`charCodeAt` sees a
      supplementary character as a surrogate pair). */
  function CodeUnitsOf(c: char): (units: seq<CodeUnit>)
    ensures |units| == 1 <==> c as int < 0x10000
    ensures |units| == 1 ==> units[0] == c as int
    ensures |units| == 2 ==>
      && 0xD800 <= units[0] < 0xDC00
      && 0xDC00 <= units[1] < 0xE000
      && c as int == 0x10000 + (units[0] as int - 0xD800) * 0x400 + (units[1] as int - 0xDC00)
    ensures 1 <= |units| <= 2
  {
    var v := c as int;
    if v < 0x10000 then [v]
    else
      var w := v - 0x10000;
      [0xD800 + w / 0x400, 0xDC00 + w % 0x400]
  }

  /** The code units `input.charCodeAt(0) .. input.charCodeAt(input.length - 1)`. */
  function Utf16(s: string): (units: seq<CodeUnit>)
    ensures |units| >= |s|
    ensures (forall i | 0 <= i < |s| :: s[i] as int < 0x10000) ==> |units| == |s|
  {
    if |s| == 0 then [] else CodeUnitsOf(s[0]) + Utf16(s[1..])
  }

  const FnvOffsetBasis: bv32 := 0x811C9DC5  // 2166136261
  const FnvPrime: bv32 := 0x01000193        // 16777619

  /** One FNV-1a round: xor in the unit, then multiply modulo 2^32. */
  function FnvStep(h: bv32, unit: CodeUnit): bv32 {
    (h ^ (unit as bv32)) * FnvPrime
  }

  /** FNV-1a as usually defined: the hash of `units + [u]` is one round
      applied to the hash of `units`; the empty input hashes to the basis. */
  function Fnv1a(units: seq<CodeUnit>): bv32 {
    if |units| == 0 then FnvOffsetBasis
    else FnvStep(Fnv1a(units[..|units| - 1]), units[|units| - 1])
  }

  /** `hashSeed(input)`: the loop over `input.length` code units, ending in
      the unsigned conversion `>>> 0` (a no-op on the bit pattern). */
  method HashSeed(input: string) returns (h: bv32)
    ensures h == Fnv1a(Utf16(input))
  {
    var units := Utf16(input);
    h := FnvOffsetBasis;
    var i := 0;
    while i < |units|
      invariant 0 <= i <= |units|
      invariant h == Fnv1a(units[..i])
    {
      assert units[..i + 1][..i] == units[..i];
      h := FnvStep(h, units[i]);
      i := i + 1;
    }
    assert units[..|units|] == units;
  }

  const Increment: bv32 := 0x6D2B79F5

  /** The output mixing of one `mulberry32` call, applied to the advanced state. */
  function Mix(value: bv32): bv32 {
    var t := (value ^ (value >> 15)) * (value | 1);
    var t' := t ^ (t + (t ^ (t >> 7)) * (t | 61));
    t' ^ (t' >> 14)
  }

  /** The division by 2^32 that turns a 32-bit output into a number in [0, 1). */
  function ToUnitInterval(x: bv32): (r: real)
    ensures 0.0 <= r < 1.0
  {
    (x as int) as real / 4294967296.0
  }

  /** `value += 0x6d2b79f5`, read modulo 2^32. */
  function Advance(value: bv32): bv32 {
    value + Increment
  }

  /** The successive states of `mulberry32(seed)`: call `i` (from 0) sees
      the seed advanced `i + 1` times by the increment, modulo 2^32. */
  function States(seed: bv32, n: nat): (r: seq<bv32>)
    ensures |r| == n
    ensures n > 0 ==> r[0] == Advance(seed)
    ensures forall i | 1 <= i < n :: r[i] == Advance(r[i - 1])
    decreases n
  {
    if n == 0 then []
    else
      var rest := States(Advance(seed), n - 1);
      var r := [Advance(seed)] + rest;
      assert forall i | 1 <= i < n :: r[i] == rest[i - 1];
      r
  }

  /** The first `n` values returned by the generator `mulberry32(seed)`. */
  function Outputs(seed: bv32, n: nat): (r: seq<real>)
    ensures |r| == n
    ensures forall i | 0 <= i < n :: 0.0 <= r[i] < 1.0
  {
    var states := States(seed, n);
    seq(n, i requires 0 <= i < n => ToUnitInterval(Mix(states[i])))
  }

  lemma {:induction false} StatesPrefix(seed: bv32, m: nat, n: nat)
    requires n <= m
    ensures States(seed, m)[..n] == States(seed, n)
    decreases n
  {
    if n > 0 {
      StatesPrefix(Advance(seed), m - 1, n - 1);
      assert States(seed, m)[..n] == [Advance(seed)] + States(Advance(seed), m - 1)[..n - 1];
    }
  }

  /** Drawing more values never changes the earlier ones: the values a seed
      yields form one fixed stream. */
  lemma OutputsPrefix(seed: bv32, m: nat, n: nat)
    requires n <= m
    ensures Outputs(seed, m)[..n] == Outputs(seed, n)
  {
    StatesPrefix(seed, m, n);
    var a := States(seed, m);
    var b := States(seed, n);
    assert forall i | 0 <= i < n :: a[i] == b[i];
  }

  /** Reference values of the mixing step: the first numbers `mulberry32(0)`
      and `mulberry32(42)` return are 0x4434b462 / 2^32 (about 0.26643) and
      0x99e1ef7c / 2^32 (about 0.60110). */
  lemma MixVectors()
    ensures Mix(Advance(0)) == 0x4434B462
    ensures Mix(Advance(42)) == 0x99E1EF7C
    ensures FirstOutput(0) == 1144304738.0 / 4294967296.0
    ensures FirstOutput(42) == 2581720956.0 / 4294967296.0
  {
  }

  /** The first value of `mulberry32(seed)`. */
  function FirstOutput(seed: bv32): (r: real)
    ensures 0.0 <= r < 1.0
    ensures r == Outputs(seed, 1)[0]
  {
    ToUnitInterval(Mix(Advance(seed)))
  }
}
