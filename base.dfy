/** Plain values shared by the whole model: optional values, 2D vectors and
    the numbers a change-set can carry. */
module Base {

  datatype Option<+T> = None | Some(value: T)

  /** A point or a vector in canvas or glyph space. */
  datatype Vec = Vec(x: real, y: real)

  function Add(a: Vec, b: Vec): Vec { Vec(a.x + b.x, a.y + b.y) }

  function Sub(a: Vec, b: Vec): Vec { Vec(a.x - b.x, a.y - b.y) }

  function Scale(k: real, a: Vec): Vec { Vec(k * a.x, k * a.y) }

  function Dot(a: Vec, b: Vec): real { a.x * b.x + a.y * b.y }

  /** The floating-point geometry the modification functions call but whose
      code is not part of this model (Math.atan2, distance2D, normalize2D,
      rayRayIntersection). The lemmas hold for every choice of them, except
      where a lemma states what it needs of them, as `Metric` below. */
  datatype Oracle = Oracle(
    atan2: (real, real) -> real,
    distance: (Vec, Vec) -> real,
    normalize: Vec -> Vec,
    rayRay: (Vec, real, Vec, real) -> Vec)

  /** A distance function never returns a negative length. */
  ghost predicate Metric(o: Oracle)
  {
    forall a: Vec, b: Vec :: o.distance(a, b) >= 0.0
  }

  /** A number as a JavaScript change-set carries it: `undefined` (clear the
      field), a finite number, or the Infinity/NaN an unguarded division by
      zero yields. */
  datatype Value = Unset | Num(r: real) | NonFinite

  /** JavaScript `a / b`: finite unless the divisor is zero. */
  function Div(a: real, b: real): (v: Value)
    ensures v.NonFinite? <==> b == 0.0
    ensures v.Num? ==> v.r * b == a
  {
    if b == 0.0 then NonFinite else Num(a / b)
  }

  /** `v - c`, where a non-finite operand stays non-finite. */
  function Minus(v: Value, c: real): Value
  {
    match v
    case Num(r) => Num(r - c)
    case _ => v
  }

  /** `v + c`, where a non-finite operand stays non-finite. */
  function Plus(v: Value, c: real): Value
  {
    match v
    case Num(r) => Num(r + c)
    case _ => v
  }
}
