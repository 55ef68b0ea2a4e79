/**
 * The non-drawing parts of lb2d.js: the pointer-status state machine behind
 * the mouse and touch handlers, three numeric clamps, and the seeded random
 * table of the Perlin noise object (its linear congruential generator and
 * `noiseDetail`). Numbers are exact reals; the generator works on integers
 * below 2^53, so integer arithmetic models it exactly.
 */
module Lb2d {

  // ---------------------------------------------------------------------------
  // Pointer status

  /** 0: nothing pending, 1: pointer is down, 2: pointer went up and has not
      been reported yet. */
  type MouseStatus = s: int | 0 <= s <= 2

  const IDLE: MouseStatus := 0
  const DOWN: MouseStatus := 1
  const RELEASED: MouseStatus := 2

  /** The module-level `mouseStatus` variable, updated by the event handlers. */
  class Pointer {
    var mouseStatus: MouseStatus

    constructor ()
      ensures mouseStatus == IDLE
    {
      mouseStatus := IDLE;
    }

    /** Handler of "mousedown". */
    method SetMouseDown()
      modifies this
      ensures mouseStatus == DOWN
    {
      mouseStatus := DOWN;
    }

    /** Handler of "mouseup". */
    method SetMouseUp()
      modifies this
      ensures mouseStatus == RELEASED
    {
      mouseStatus := RELEASED;
    }

    /** Handler of "touchstart" (the touch coordinates it also records are not modelled). */
    method SetTouchDown()
      modifies this
      ensures mouseStatus == DOWN
    {
      mouseStatus := DOWN;
    }

    /** Handler of "touchend". */
    method SetTouchUp()
      modifies this
      ensures mouseStatus == RELEASED
    {
      mouseStatus := RELEASED;
    }

    /** Level-triggered: true while the pointer is down; reads the status only. */
    function IsMouseDown(): bool
      reads this
    {
      mouseStatus == DOWN
    }

    /** Edge-triggered: reports a pending release once and clears it. */
    method IsMouseUp() returns (up: bool)
      modifies this
      ensures up <==> old(mouseStatus) == RELEASED
      ensures mouseStatus == if up then IDLE else old(mouseStatus)
    {
      if mouseStatus == RELEASED {
        mouseStatus := IDLE;
        up := true;
      } else {
        up := false;
      }
    }
  }

  /** Polling isMouseUp twice in a row: the second poll is always false, and a
      pointer that is down stays down. */
  method PollMouseUpTwice(pointer: Pointer) returns (first: bool, second: bool)
    modifies pointer
    ensures first <==> old(pointer.mouseStatus) == RELEASED
    ensures !second
    ensures pointer.mouseStatus == if first then IDLE else old(pointer.mouseStatus)
    ensures old(pointer.mouseStatus) == DOWN ==> pointer.IsMouseDown()
  {
    first := pointer.IsMouseUp();
    second := pointer.IsMouseUp();
  }

  /** One release is reported exactly once, whatever was pending before. */
  method ReleaseReportedOnce(pointer: Pointer) returns (first: bool, second: bool)
    modifies pointer
    ensures first && !second
    ensures pointer.mouseStatus == IDLE && !pointer.IsMouseDown()
  {
    pointer.SetMouseUp();
    first := pointer.IsMouseUp();
    second := pointer.IsMouseUp();
  }

  /** A touch held across a poll: isMouseUp reports nothing and isMouseDown
      stays true; after touchend isMouseDown is false and the release is
      reported once. */
  method TouchCycle() returns (upWhileHeld: bool, downWhileHeld: bool, downAfterEnd: bool, upAfterEnd: bool)
    ensures !upWhileHeld && downWhileHeld
    ensures !downAfterEnd && upAfterEnd
  {
    var pointer := new Pointer();
    pointer.SetTouchDown();
    upWhileHeld := pointer.IsMouseUp();
    downWhileHeld := pointer.IsMouseDown();
    pointer.SetTouchUp();
    downAfterEnd := pointer.IsMouseDown();
    upAfterEnd := pointer.IsMouseUp();
  }

  // ---------------------------------------------------------------------------
  // Numeric clamps

  function Min(a: real, b: real): real {
    if a <= b then a else b
  }

  function Max(a: real, b: real): real {
    if a >= b then a else b
  }

  function Abs(a: real): real {
    if a < 0.0 then -a else a
  }

  /** `Math.min(max, Math.max(min, value))`: with `min <= max` the result lies
      in [min, max], is `value` itself when that is in range, and is the
      nearer bound otherwise; an inverted range always yields `max`. */
  function Constrain(value: real, min: real, max: real): (r: real)
    ensures min <= max ==> min <= r <= max
    ensures min <= value <= max ==> r == value
    ensures value < min && min <= max ==> r == min
    ensures max < value ==> r == max
    ensures max < min ==> r == max
  {
    Min(max, Max(min, value))
  }

  /** Rescales `n` from [start1, stop1] to [start2, stop2] and clamps the result
      to the target range, whichever way round that range is given. */
  function Map(n: real, start1: real, stop1: real, start2: real, stop2: real): (r: real)
    requires stop1 != start1
    ensures Min(start2, stop2) <= r <= Max(start2, stop2)
    ensures var newval := ((n - start1) / (stop1 - start1)) * (stop2 - start2) + start2;
            Min(start2, stop2) <= newval <= Max(start2, stop2) ==> r == newval
  {
    var newval := ((n - start1) / (stop1 - start1)) * (stop2 - start2) + start2;
    if start2 < stop2 then Constrain(newval, start2, stop2) else Constrain(newval, stop2, start2)
  }

  /** The ends of the source range go to the ends of the target range. */
  lemma MapEndpoints(start1: real, stop1: real, start2: real, stop2: real)
    requires stop1 != start1
    ensures Map(start1, start1, stop1, start2, stop2) == start2
    ensures Map(stop1, start1, stop1, start2, stop2) == stop2
  {
    var d := stop1 - start1;
    assert (start1 - start1) / d == 0.0;
    assert (stop1 - start1) / d == 1.0;
    assert 0.0 * (stop2 - start2) + start2 == start2;
    assert 1.0 * (stop2 - start2) + start2 == stop2;
  }

  /** Clamps the magnitude of `number` to `limit` and keeps its sign: with
      `limit >= 0` the result has absolute value min(|number|, limit) and is
      negative exactly when `number` is negative and `limit` is positive. */
  function LimitNum(number: real, limit: real): (r: real)
    ensures 0.0 <= limit ==> Abs(r) == Min(Abs(number), limit)
    ensures 0.0 <= limit ==> (r < 0.0 <==> number < 0.0 && 0.0 < limit)
    ensures 0.0 <= limit && Abs(number) <= limit ==> r == number
  {
    var sign := if number < 0.0 then -1.0 else 1.0;
    var numberMag := Abs(number);
    var clamped := if numberMag > limit then limit else numberMag;
    clamped * sign
  }

  // ---------------------------------------------------------------------------
  // Linear congruential generator (Numerical Recipes constants)

  const LCG_M: int := 4294967296
  const LCG_A: int := 1664525
  const LCG_C: int := 1013904223

  type Uint32 = n: int | 0 <= n < 4294967296

  /** JavaScript's `val >>> 0` on a finite number: truncate toward zero, then
      reduce modulo 2^32 into [0, 2^32). Integers already in range are kept. */
  function ToUint32(val: real): (r: Uint32)
    ensures (r - Truncate(val)) % LCG_M == 0
    ensures val == (val.Floor as real) && 0 <= val.Floor < LCG_M ==> r == val.Floor
  {
    Truncate(val) % LCG_M
  }

  /** Rounding toward zero. */
  function Truncate(val: real): int {
    if val >= 0.0 then val.Floor else -((-val).Floor)
  }

  /** One step of the recurrence z := (a z + c) mod m. */
  function Next(z: Uint32): Uint32 {
    (LCG_A * z + LCG_C) % LCG_M
  }

  /** The recurrence never leaves the range in which JavaScript numbers are exact
      integers: a z + c stays below 2^53, so the floating-point `%` the source
      uses is exact. */
  lemma NextIsExact(z: Uint32)
    ensures 0 <= LCG_A * z + LCG_C < 0x20_0000_0000_0000
    ensures Next(z) == (LCG_A * z + LCG_C) - ((LCG_A * z + LCG_C) / LCG_M) * LCG_M
  {
  }

  /** The state after `n` calls of rand() from state `z`. */
  function State(z: Uint32, n: nat): Uint32 {
    if n == 0 then z else Next(State(z, n - 1))
  }

  /** The value rand() returns when it moves to state `z`. */
  function Output(z: Uint32): (r: real)
    ensures 0.0 <= r < 1.0
  {
    z as real / LCG_M as real
  }

  /** The first `n` values rand() returns from state `z`. */
  function Values(z: Uint32, n: nat): (vs: seq<real>)
    ensures |vs| == n
  {
    if n == 0 then [] else Values(z, n - 1) + [Output(State(z, n))]
  }

  /** Every value of the generator lies in [0, 1), and value i is the output of
      state i + 1. */
  lemma {:induction false} ValuesInUnit(z: Uint32, n: nat)
    ensures forall i :: 0 <= i < n ==> Values(z, n)[i] == Output(State(z, i + 1))
    ensures forall i :: 0 <= i < n ==> 0.0 <= Values(z, n)[i] < 1.0
  {
    if n > 0 {
      ValuesInUnit(z, n - 1);
      assert Values(z, n) == Values(z, n - 1) + [Output(State(z, n))];
      forall i | 0 <= i < n
        ensures Values(z, n)[i] == Output(State(z, i + 1))
      {
        if i < n - 1 {
          assert Values(z, n)[i] == Values(z, n - 1)[i];
        }
      }
    }
  }

  /** A prefix of the sequence does not depend on how far it is continued. */
  lemma {:induction false} ValuesPrefix(z: Uint32, m: nat, n: nat)
    requires m <= n
    ensures Values(z, n)[..m] == Values(z, m)
  {
    if m < n {
      ValuesPrefix(z, m, n - 1);
      assert Values(z, n)[..n - 1] == Values(z, n - 1);
      assert Values(z, n)[..m] == Values(z, n - 1)[..m];
    } else {
      assert Values(z, n)[..m] == Values(z, n);
    }
  }

  /** The generator object `lcg` built inside noiseSeed: `seed` and `z` are its
      closure variables, which stay undefined until setSeed is called. */
  class Lcg {
    var seeded: bool
    var seed: Uint32
    var z: Uint32

    constructor ()
      ensures !seeded
    {
      seeded := false;
      seed := 0;
      z := 0;
    }

    /** Stores `val >>> 0` as both the seed and the current state. */
    method SetSeed(val: real)
      modifies this
      ensures seeded && seed == ToUint32(val) && z == seed
    {
      seed := ToUint32(val);
      z := seed;
      seeded := true;
    }

    function GetSeed(): Uint32
      reads this
      requires seeded
    {
      seed
    }

    /** Advances the state and returns it scaled into [0, 1). */
    method Rand() returns (r: real)
      requires seeded
      modifies this
      ensures seeded && seed == old(seed)
      ensures z == Next(old(z))
      ensures r == Output(z) && 0.0 <= r < 1.0
    {
      z := Next(z);
      r := Output(z);
    }
  }

  /** Two generators given the same seed produce the same `n` values: the
      sequence is determined by the seed alone. */
  method SameSeedSameSequence(seed: real, n: nat) returns (xs: seq<real>, ys: seq<real>)
    ensures xs == ys
    ensures xs == Values(ToUint32(seed), n)
  {
    var g1 := new Lcg();
    var g2 := new Lcg();
    g1.SetSeed(seed);
    g2.SetSeed(seed);
    xs, ys := [], [];
    var i := 0;
    while i < n
      invariant 0 <= i <= n
      invariant g1.seeded && g2.seeded
      invariant g1.z == g2.z == State(ToUint32(seed), i)
      invariant xs == ys == Values(ToUint32(seed), i)
    {
      var x := g1.Rand();
      var y := g2.Rand();
      xs, ys := xs + [x], ys + [y];
      i := i + 1;
    }
  }

  /** getSeed keeps returning the seed `val >>> 0` however many values rand()
      has produced since setSeed, and those values are the generator's. */
  method SeedSurvivesRand(val: real, n: nat) returns (s: Uint32, xs: seq<real>)
    ensures s == ToUint32(val)
    ensures xs == Values(ToUint32(val), n)
  {
    var g := new Lcg();
    g.SetSeed(val);
    xs := [];
    for i := 0 to n
      invariant g.seeded && g.seed == ToUint32(val)
      invariant g.z == State(ToUint32(val), i)
      invariant xs == Values(ToUint32(val), i)
    {
      var x := g.Rand();
      xs := xs + [x];
    }
    s := g.GetSeed();
  }

  // ---------------------------------------------------------------------------
  // Perlin noise state

  const PERLIN_SIZE: nat := 4095

  /** The object perlinNoise() returns: octave count, amplitude falloff and the
      random table (null until first filled). */
  class Perlin {
    var octaves: real
    var ampFalloff: real
    var table: array?<real>

    constructor ()
      ensures octaves == 4.0 && ampFalloff == 0.5 && table == null
    {
      octaves := 4.0;
      ampFalloff := 0.5;
      table := null;
    }

    /** Takes `lod` and `falloff` only when they are positive. */
    method NoiseDetail(lod: real, falloff: real)
      modifies this
      ensures octaves == if lod > 0.0 then lod else old(octaves)
      ensures ampFalloff == if falloff > 0.0 then falloff else old(ampFalloff)
      ensures table == old(table)
    {
      if lod > 0.0 {
        octaves := lod;
      }
      if falloff > 0.0 {
        ampFalloff := falloff;
      }
    }

    /** Replaces the table by PERLIN_SIZE + 1 = 4096 fresh values of a generator
        seeded with `seed`, each in [0, 1). */
    method NoiseSeed(seed: real)
      modifies this
      ensures table != null && fresh(table)
      ensures table.Length == PERLIN_SIZE + 1
      ensures table[..] == Values(ToUint32(seed), table.Length)
      ensures forall i :: 0 <= i < table.Length ==> 0.0 <= table[i] < 1.0
      ensures octaves == old(octaves) && ampFalloff == old(ampFalloff)
    {
      var lcg := new Lcg();
      lcg.SetSeed(seed);
      var perlin := new real[PERLIN_SIZE + 1];
      Fill(lcg, perlin);
      ValuesInUnit(ToUint32(seed), perlin.Length);
      table := perlin;
    }
  }

  /** The loop of noiseSeed: entry i of `perlin` receives the (i + 1)-th value
      of the generator. */
  method Fill(lcg: Lcg, perlin: array<real>)
    requires lcg.seeded
    modifies lcg, perlin
    ensures perlin[..] == Values(old(lcg.z), perlin.Length)
    ensures lcg.z == State(old(lcg.z), perlin.Length)
    ensures lcg.seeded && lcg.seed == old(lcg.seed)
  {
    ghost var z0 := lcg.z;
    for i := 0 to perlin.Length
      invariant lcg.seeded && lcg.seed == old(lcg.seed)
      invariant lcg.z == State(z0, i)
      invariant perlin[..i] == Values(z0, i)
    {
      var r := lcg.Rand();
      perlin[i] := r;
      assert perlin[..i + 1] == perlin[..i] + [r];
    }
    assert perlin[..] == perlin[..perlin.Length];
  }

  /** Seeding twice with the same value yields the same table. */
  method NoiseSeedDeterministic(seed: real) returns (t1: seq<real>, t2: seq<real>)
    ensures t1 == t2 && |t1| == PERLIN_SIZE + 1
  {
    var noise1 := new Perlin();
    var noise2 := new Perlin();
    noise1.NoiseSeed(seed);
    noise2.NoiseSeed(seed);
    t1 := noise1.table[..];
    t2 := noise2.table[..];
  }
}
