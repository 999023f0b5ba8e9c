/** Vertex attributes of the mesh loader and the equality test it deduplicates by.

    A `glm::vec3` component is a single-precision float, and the loader compares
    vertices with `==` component by component. Under IEEE equality a NaN is
    unequal to everything, itself included, while every other value behaves like
    a number; the model keeps exactly that distinction and nothing more.
 */
module Geometry {

  /** A float component as `==` sees it: a number, or NaN. */
  datatype Float = Num(value: real) | NaN

  /** IEEE equality on one component: NaN never compares equal. */
  predicate FloatEq(a: Float, b: Float) {
    a.Num? && b.Num? && a.value == b.value
  }

  datatype Vec3 = Vec3(x: Float, y: Float, z: Float)

  /** Component-wise `==` of two `glm::vec3`. */
  predicate Vec3Eq(a: Vec3, b: Vec3) {
    FloatEq(a.x, b.x) && FloatEq(a.y, b.y) && FloatEq(a.z, b.z)
  }

  /** The interleaved vertex the loader emits: a position and a normal. */
  datatype Vertex = Vertex(position: Vec3, normal: Vec3)

  predicate HasNaN(v: Vertex) {
    v.position.x.NaN? || v.position.y.NaN? || v.position.z.NaN? ||
    v.normal.x.NaN? || v.normal.y.NaN? || v.normal.z.NaN?
  }

  /** The dedup test: equal position AND equal normal. */
  predicate SameAttributes(a: Vertex, b: Vertex) {
    Vec3Eq(a.position, b.position) && Vec3Eq(a.normal, b.normal)
  }

  /** The test coincides with structural equality except that a vertex
      carrying a NaN matches nothing, not even an identical copy. */
  lemma SameAttributesIsEquality(a: Vertex, b: Vertex)
    ensures SameAttributes(a, b) <==> a == b && !HasNaN(a)
  {
  }
}
