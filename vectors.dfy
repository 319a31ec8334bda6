/** Unity's value vectors, with `float` components read as `real`. */
module Vectors {
  datatype Vector2 = Vector2(x: real, y: real)

  datatype Vector3 = Vector3(x: real, y: real, z: real)

  const Zero3 := Vector3(0.0, 0.0, 0.0)

  function Negate(v: Vector3): Vector3 {
    Vector3(-v.x, -v.y, -v.z)
  }

  function SqrMagnitude(v: Vector3): real {
    v.x * v.x + v.y * v.y + v.z * v.z
  }

  /** Unity's `==` on vectors: the squared distance is below 1e-10. */
  predicate NearlyEqual(a: Vector3, b: Vector3) {
    SqrMagnitude(Vector3(a.x - b.x, a.y - b.y, a.z - b.z)) < 1.0 / 10_000_000_000.0
  }

  function Abs(r: real): real {
    if r < 0.0 then -r else r
  }
}
