/** The small gates and normalisers the editor applies to user input before
    it reaches the state: the hex-field pattern, angle normalisation and the
    position clamp. */
module Inputs {
  import opened ColorCodec

  /** The pattern /^[0-9a-fA-F]{6}$/ on the (already trimmed) field text. */
  predicate IsHexInput(raw: string) {
    |raw| == 6 && AllHexDigits(raw)
  }

  /** Text that passes the pattern becomes, behind '#', a colour whose digits are that text. */
  lemma HexInputIsColor(raw: string)
    requires IsHexInput(raw)
    ensures IsHexColor("#" + raw) && SixDigits("#" + raw) == raw
  {
    HashSix(raw);
  }

  /** The JavaScript remainder operator on integers: it truncates toward zero,
      so the result takes the sign of the dividend. */
  function JsRem(a: int, b: int): (r: int)
    requires b > 0
    ensures -b < r < b
    ensures a >= 0 ==> 0 <= r
    ensures a <= 0 ==> r <= 0
    ensures (a - r) % b == 0
  {
    if a >= 0 then
      RemainderDivides(a, b);
      a % b
    else
      RemainderDivides(-a, b);
      MultipleRem(b, -((-a) / b));
      -((-a) % b)
  }

  /** A multiple of b leaves no remainder. */
  lemma MultipleRem(b: int, q: int)
    requires b > 0
    ensures (b * q) % b == 0
  {
    var m := b * q;
    var d := q - m / b;
    assert m == b * (m / b) + m % b;
    assert b * d == m % b;
    if d >= 1 {
      assert false;
    } else if d <= -1 {
      assert false;
    }
  }

  /** n less its remainder is a multiple of b, and of b on the negative side too. */
  lemma RemainderDivides(n: int, b: int)
    requires b > 0
    ensures n - n % b == b * (n / b) && (n - n % b) % b == 0
    ensures -n + n % b == b * -(n / b)
  {
    assert n == b * (n / b) + n % b;
    MultipleRem(b, n / b);
  }

  /** ((v % 360) + 360) % 360, as the angle field and the angle wheel apply it. */
  function NormalizeAngle(v: int): (r: int)
    ensures 0 <= r < 360
    ensures r == v % 360
  {
    AngleRemainders(v);
    JsRem(JsRem(v, 360) + 360, 360)
  }

  /** The truncating remainder lands within one turn of the Euclidean one. */
  lemma AngleRemainders(v: int)
    ensures JsRem(v, 360) + 360 >= 0
    ensures JsRem(JsRem(v, 360) + 360, 360) == v % 360
  {
    var m := JsRem(v, 360);
    if v >= 0 {
      assert m == v % 360;
      assert (m + 360) % 360 == m;
    } else {
      var q := (-v) / 360;
      assert -v == 360 * q + (-v) % 360;
      assert m + 360 == v + 360 * (q + 1);
    }
  }

  lemma NormalizeAngleIdempotent(v: int)
    ensures NormalizeAngle(NormalizeAngle(v)) == NormalizeAngle(v)
  {
  }

  /** An angle already in [0, 360) is left as it is. */
  lemma NormalizeAngleKeepsRange(v: int)
    requires 0 <= v < 360
    ensures NormalizeAngle(v) == v
  {
  }

  /** Math.max(0, Math.min(100, p)) on an already rounded percentage. */
  function ClampPosition(p: int): (r: int)
    ensures 0 <= r <= 100
    ensures 0 <= p <= 100 ==> r == p
    ensures p < 0 ==> r == 0
    ensures p > 100 ==> r == 100
  {
    if p < 0 then 0 else if p > 100 then 100 else p
  }
}
