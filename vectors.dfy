/** Integer and real vectors standing for the engine's IVec2, Vec2 and Vec3.
    Floating point is modelled by exact reals. */
module Vectors {
  /** An integer grid position (IVec2 / GridCoords / Pos). */
  datatype IVec2 = IVec2(x: int, y: int)
  {
    function Add(o: IVec2): IVec2 { IVec2(x + o.x, y + o.y) }
  }

  /** A world-space 2D vector. */
  datatype Vec2 = Vec2(x: real, y: real)
  {
    function Add(o: Vec2): Vec2 { Vec2(x + o.x, y + o.y) }
    function Sub(o: Vec2): Vec2 { Vec2(x - o.x, y - o.y) }
    function Scale(k: real): Vec2 { Vec2(k * x, k * y) }
    function Dot(o: Vec2): real { x * o.x + y * o.y }
  }

  /** A world-space 3D vector (camera and transform translations). */
  datatype Vec3 = Vec3(x: real, y: real, z: real)

  const Zero2: Vec2 := Vec2(0.0, 0.0)
  const Zero3: Vec3 := Vec3(0.0, 0.0, 0.0)

  /** Squared Euclidean distance; `a.distance(b) < r` for r > 0 is `SqDist(a, b) < r * r`. */
  function SqDist(a: Vec2, b: Vec2): real
  {
    a.Sub(b).Dot(a.Sub(b))
  }

  function Abs(r: real): real { if r < 0.0 then -r else r }
}
