/** The integer helpers of libraries/shared.py: clamping, packing a colour
    into RGB565, and the PID controller. Python integers are unbounded, so
    are Dafny's; `>>` and `<<` on the non-negative values used here are
    division and multiplication by powers of two. */
module Shared {

  /** `clamp(n, n_min, n_max)`, that is `max(n_min, min(n, n_max))`. When the
      bounds are crossed the lower one wins. */
  function Clamp(n: int, lo: int, hi: int): (r: int)
    ensures lo <= hi ==> lo <= r <= hi
    ensures lo <= n <= hi ==> r == n
    ensures n < lo ==> r == lo
    ensures lo <= hi && hi < n ==> r == hi
    ensures hi < lo ==> r == lo
  {
    var m := if n < hi then n else hi;
    if lo < m then m else lo
  }

  /** Clamping twice is clamping once. */
  lemma ClampIdempotent(n: int, lo: int, hi: int)
    ensures Clamp(Clamp(n, lo, hi), lo, hi) == Clamp(n, lo, hi)
  {
  }

  // ----------------------------------------------------------- bitwise or

  function Pow2(k: nat): (p: nat)
    ensures p >= 1
  {
    if k == 0 then 1 else 2 * Pow2(k - 1)
  }

  /** Python's `|` on non-negative integers, bit by bit from the lowest. */
  function BitOr(a: nat, b: nat): nat
    decreases a + b
  {
    if a == 0 then b
    else if b == 0 then a
    else 2 * BitOr(a / 2, b / 2) + (if a % 2 == 1 || b % 2 == 1 then 1 else 0)
  }

  /** Or-ing a multiple of 2^k with a value below 2^k adds them. */
  lemma {:induction false} BitOrDisjoint(q: nat, b: nat, k: nat)
    requires b < Pow2(k)
    ensures BitOr(q * Pow2(k), b) == q * Pow2(k) + b
    decreases k
  {
    if k > 0 && q != 0 && b != 0 {
      var p := Pow2(k - 1);
      var x := q * p;
      assert q * Pow2(k) == 2 * x;
      assert (2 * x) / 2 == x && (2 * x) % 2 == 0;
      BitOrDisjoint(q, b / 2, k - 1);
      assert BitOr(2 * x, b) == 2 * (x + b / 2) + b % 2;
    }
  }

  // --------------------------------------------------------------- RGB565

  /** `convertRGBTo565(r, g, b)`: every component clamped to 0..255, reduced to
      5, 6 and 5 bits, and packed as `(r5 << 11) | (g6 << 5) | b5`. */
  function ConvertRGBTo565(r: int, g: int, b: int): (c: int)
    ensures 0 <= c <= 65535
    ensures c == Clamp(r, 0, 255) / 8 * 2048 + Clamp(g, 0, 255) / 4 * 32 + Clamp(b, 0, 255) / 8
  {
    var r5 := Clamp(r, 0, 255) / 8;
    var g6 := Clamp(g, 0, 255) / 4;
    var b5 := Clamp(b, 0, 255) / 8;
    Pack565(r5, g6, b5);
    BitOr(BitOr(r5 * 2048, g6 * 32), b5)
  }

  /** The three fields occupy disjoint bits, so the two ors are sums. */
  lemma Pack565(r5: nat, g6: nat, b5: nat)
    requires r5 < 32 && g6 < 64 && b5 < 32
    ensures BitOr(BitOr(r5 * 2048, g6 * 32), b5) == r5 * 2048 + g6 * 32 + b5
  {
    assert Pow2(5) == 32 && Pow2(11) == 2048 by {
      assert Pow2(1) == 2 && Pow2(2) == 4 && Pow2(3) == 8 && Pow2(4) == 16;
      assert Pow2(6) == 64 && Pow2(7) == 128 && Pow2(8) == 256 && Pow2(9) == 512 && Pow2(10) == 1024;
    }
    BitOrDisjoint(r5, g6 * 32, 11);
    BitOrDisjoint(r5 * 64 + g6, b5, 5);
    assert (r5 * 64 + g6) * 32 == r5 * 2048 + g6 * 32;
  }

  /** For components already in 0..255 each one's top bits can be read back
      from its field. */
  lemma FieldsRecoverable(r: int, g: int, b: int)
    requires 0 <= r <= 255 && 0 <= g <= 255 && 0 <= b <= 255
    ensures ConvertRGBTo565(r, g, b) / 2048 == r / 8
    ensures (ConvertRGBTo565(r, g, b) / 32) % 64 == g / 4
    ensures ConvertRGBTo565(r, g, b) % 32 == b / 8
  {
    var c := ConvertRGBTo565(r, g, b);
    var r5, g6, b5 := r / 8, g / 4, b / 8;
    var hi := r5 * 64 + g6;
    assert c == hi * 32 + b5;
    assert c / 32 == hi && c % 32 == b5;
    assert hi / 64 == r5 && hi % 64 == g6;
    assert c / 2048 == (c / 32) / 64;
  }

  /** Out-of-range components behave like the nearest bound. */
  lemma ConvertSaturates(r: int, g: int, b: int)
    ensures ConvertRGBTo565(r, g, b) == ConvertRGBTo565(Clamp(r, 0, 255), Clamp(g, 0, 255), Clamp(b, 0, 255))
  {
  }

  /** Black packs to 0 and white to 65535. */
  lemma ConvertExtremes()
    ensures ConvertRGBTo565(0, 0, 0) == 0
    ensures ConvertRGBTo565(255, 255, 255) == 65535
  {
  }

  // ------------------------------------------------------------------ PID

  /** The integral term `clamp(previous + e * Ki, -max, max)`. */
  function IntegralError(previous: int, error: int, ki: int, clampMax: int): (e: int)
    ensures clampMax >= 0 ==> -clampMax <= e <= clampMax
    ensures clampMax >= 0 && -clampMax <= previous + error * ki <= clampMax ==> e == previous + error * ki
  {
    Clamp(previous + error * ki, -clampMax, clampMax)
  }

  /** `Kp*e + Ki*integral + Kd*(e - previous e)`. */
  function Output(kp: int, ki: int, kd: int, error: int, integral: int, previousError: int): (v: int)
    ensures error == previousError ==> v == kp * error + ki * integral
  {
    kp * error + ki * integral + kd * (error - previousError)
  }

  class Pid {
    var proportional: int
    var integral: int
    var derivative: int
    var previousErrorProportional: int
    var previousErrorIntegral: int

    /** `PID(proportional, integral, derivative)`: the gains, both errors 0. */
    constructor (proportional: int, integral: int, derivative: int)
      ensures this.proportional == proportional && this.integral == integral && this.derivative == derivative
      ensures previousErrorProportional == 0 && previousErrorIntegral == 0
    {
      this.proportional := proportional;
      this.integral := integral;
      this.derivative := derivative;
      previousErrorProportional := 0;
      previousErrorIntegral := 0;
    }

    /** `calculate`: remembers the new proportional error and returns the
        three terms' sum. The stored integral error is read but never
        written, so the integral term never accumulates. */
    method Calculate(setPoint: int, variable: int, integralClampMax: int) returns (value: int)
      modifies this`previousErrorProportional
      ensures previousErrorProportional == setPoint - variable
      ensures value == Output(proportional, integral, derivative, setPoint - variable,
        IntegralError(previousErrorIntegral, setPoint - variable, integral, integralClampMax),
        old(previousErrorProportional))
    {
      var errorProportional := setPoint - variable;
      var errorIntegral := Clamp(previousErrorIntegral + errorProportional * integral, -integralClampMax, integralClampMax);
      var errorDerivative := errorProportional - previousErrorProportional;
      previousErrorProportional := errorProportional;
      value := proportional * errorProportional + integral * errorIntegral + derivative * errorDerivative;
    }
  }
}
