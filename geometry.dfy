/** Exact 3D vectors and the axis-aligned boxes the octree uses for its bounds
    and for range queries. Coordinates are reals, so the halving and doubling
    of node sizes are exact. */
module Geometry {

  /** A point or an extent in space, one component per axis. */
  datatype Vec3 = Vec3(x: real, y: real, z: real) {

    function Add(o: Vec3): Vec3 {
      Vec3(x + o.x, y + o.y, z + o.z)
    }

    function Sub(o: Vec3): Vec3 {
      Vec3(x - o.x, y - o.y, z - o.z)
    }

    /** The vector times a scalar. */
    function Scale(k: real): Vec3 {
      Vec3(x * k, y * k, z * k)
    }

    /** The vector divided by two, component by component. */
    function Halve(): Vec3 {
      Vec3(x / 2.0, y / 2.0, z / 2.0)
    }
  }

  /** A box given by its lowest corner and its extent on each axis. */
  datatype Aabb = Aabb(position: Vec3, size: Vec3) {

    /** The highest corner of the box. */
    function End(): Vec3 {
      position.Add(size)
    }
  }

  /** `v` lies in the closed interval from `lo` to `lo + len`. */
  predicate InSpan(lo: real, len: real, v: real) {
    lo <= v <= lo + len
  }

  /** The strict overlap test on one axis: each interval starts before the
      other one ends, so intervals that only touch at an end do not count. */
  predicate SpansOverlap(a: real, la: real, b: real, lb: real) {
    a < b + lb && b < a + la
  }

  /** The point lies in the box, boundary included, on every axis. */
  predicate HasPoint(box: Aabb, p: Vec3) {
    && InSpan(box.position.x, box.size.x, p.x)
    && InSpan(box.position.y, box.size.y, p.y)
    && InSpan(box.position.z, box.size.z, p.z)
  }

  /** The two boxes pass the strict overlap test on every axis (touching
      borders do not count; a box of zero extent inside the other does). */
  predicate Intersects(a: Aabb, b: Aabb) {
    && SpansOverlap(a.position.x, a.size.x, b.position.x, b.size.x)
    && SpansOverlap(a.position.y, a.size.y, b.position.y, b.size.y)
    && SpansOverlap(a.position.z, a.size.z, b.position.z, b.size.z)
  }

  /** Every point of `inner` lies in `outer`. */
  predicate Within(inner: Aabb, outer: Aabb) {
    && outer.position.x <= inner.position.x && inner.End().x <= outer.End().x
    && outer.position.y <= inner.position.y && inner.End().y <= outer.End().y
    && outer.position.z <= inner.position.z && inner.End().z <= outer.End().z
  }

  /** The region of a node: the box of extent `size` centred on `center`. */
  function Bounds(center: Vec3, size: Vec3): (b: Aabb)
    ensures b.size == size
    ensures b.position.Add(size.Scale(0.5)) == center
    ensures b.End() == center.Add(size.Scale(0.5))
  {
    Aabb(center.Sub(size.Scale(0.5)), size)
  }
}
