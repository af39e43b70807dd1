/** The `vec3` value type and its four arithmetic operators, over exact reals. */
module Vectors {

  /** A point or vector in three dimensions. */
  datatype Vec3 = Vec3(x: real, y: real, z: real)

  /** `v1 + v2`: componentwise sum. */
  function Add(a: Vec3, b: Vec3): (r: Vec3)
    ensures r.x == a.x + b.x && r.y == a.y + b.y && r.z == a.z + b.z
  {
    Vec3(a.x + b.x, a.y + b.y, a.z + b.z)
  }

  /** `v1 - v2`: componentwise difference; it undoes an addition of `b`. */
  function Sub(a: Vec3, b: Vec3): (r: Vec3)
    ensures Add(r, b) == a
  {
    Vec3(a.x - b.x, a.y - b.y, a.z - b.z)
  }

  /** `v * m`: every component multiplied by the scalar. */
  function Scale(v: Vec3, m: real): (r: Vec3)
    ensures r.x == m * v.x && r.y == m * v.y && r.z == m * v.z
  {
    Vec3(v.x * m, v.y * m, v.z * m)
  }

  /** `m * v`: the scalar on the left; the same vector as `v * m`. */
  function ScaleLeft(m: real, v: Vec3): (r: Vec3)
    ensures r == Scale(v, m)
  {
    Vec3(v.x * m, v.y * m, v.z * m)
  }

  /** Adding and then subtracting the same vector gives back the original, in either order. */
  lemma AddSubRoundTrip(a: Vec3, b: Vec3)
    ensures Sub(Add(a, b), b) == a
    ensures Add(Sub(a, b), b) == a
  {
  }

  /** Addition acts on each component separately, so it commutes. */
  lemma AddCommutes(a: Vec3, b: Vec3)
    ensures Add(a, b) == Add(b, a)
    ensures Add(a, b).x == a.x + b.x && Add(a, b).y == a.y + b.y && Add(a, b).z == a.z + b.z
  {
  }

  /** Both operand orders of scalar multiplication give the same vector. */
  lemma ScaleOperandsCommute(m: real, v: Vec3)
    ensures ScaleLeft(m, v) == Scale(v, m)
    ensures Scale(v, m).x == m * v.x && Scale(v, m).y == m * v.y && Scale(v, m).z == m * v.z
  {
  }
}
