/** The glm vocabulary the scene graph uses, kept abstract.

    Vectors are records of reals. A 4x4 matrix is kept as the term that built
    it (the identity, sixteen column-major entries copied from a file, a pure
    translation, rotation or scale, or a product), so two transforms are equal
    here exactly when they were built the same way, which implies that glm
    would compute the same matrix for both. Float rounding is not modelled. */
module Transforms {

  datatype Vec2 = Vec2(s: real, t: real)

  datatype Vec3 = Vec3(x: real, y: real, z: real)

  datatype Vec4 = Vec4(x: real, y: real, z: real, w: real)

  /** A quaternion in glm's constructor order: `glm::quat(w, x, y, z)`. */
  datatype Quat = Quat(w: real, x: real, y: real, z: real)

  datatype Mat4 =
    | Identity                      // glm::mat4(1.0f)
    | Columns(entries: seq<real>)   // a matrix whose column-major entries are given
    | Translate(offset: Vec3)       // glm::translate(glm::mat4(1.0f), offset)
    | Rotate(rotation: Quat)        // glm::mat4_cast(rotation)
    | Scale(factors: Vec3)          // glm::scale(glm::mat4(1.0f), factors)
    | Mul(left: Mat4, right: Mat4)  // left * right

  /** glm::mix on vec4 with a scalar weight: `a * (1 - t) + b * t`, component by component.
      The result is the point a fraction `t` of the way from `a` to `b`. */
  function Mix(a: Vec4, b: Vec4, t: real): (r: Vec4)
    ensures r.x == a.x + t * (b.x - a.x) && r.y == a.y + t * (b.y - a.y)
    ensures r.z == a.z + t * (b.z - a.z) && r.w == a.w + t * (b.w - a.w)
  {
    Vec4(a.x * (1.0 - t) + b.x * t, a.y * (1.0 - t) + b.y * t,
         a.z * (1.0 - t) + b.z * t, a.w * (1.0 - t) + b.w * t)
  }

  function XYZ(v: Vec4): Vec3 {
    Vec3(v.x, v.y, v.z)
  }
}
