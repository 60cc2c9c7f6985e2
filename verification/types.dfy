/** The value types the engine passes around: points and directions,
    texture coordinates, colours, triangles and the camera.

    Every `float` of the C structs is an exact `real` here. The C triangle
    is built with compound literals such as `(tri){a, b, c}`, which zero
    every field that is not named; `MakeTri` is that literal. */
module Types {

  /** Size of the window the normalised device coordinates are mapped to. */
  const SCREEN_WIDTH: real := 800.0
  const SCREEN_HEIGHT: real := 500.0

  /** A point or a direction. */
  datatype Vec3 = Vec3(x: real, y: real, z: real)

  /** A texture coordinate. */
  datatype Vec2 = Vec2(u: real, v: real)

  /** A colour; the channels are kept as the reals the C code computes
      before it stores them into bytes. */
  datatype Color = Color(r: real, g: real, b: real, a: real)

  /** A triangle: corner positions, corner texture coordinates, corner
      normals, corner colours, the flat colour `renderMesh` assigns, and
      the flag the mesh builders clear. The last two are written by the
      code but missing from the struct in 3dEngine.h. */
  datatype Tri = Tri(
    a: Vec3, b: Vec3, c: Vec3,
    at: Vec2, bt: Vec2, ct: Vec2,
    an: Vec3, bn: Vec3, cn: Vec3,
    ac: Color, bc: Color, cc: Color,
    color: Color,
    cull: bool)

  datatype Camera = Camera(pos: Vec3, rot: Vec3, f: real)

  /** Domain and sampling resolution of a parametric surface. The C type
      is not declared in the files of this model; real bounds and integer
      step counts are assumed. */
  datatype ParamBounds = ParamBounds(
    umin: real, umax: real, usteps: int,
    vmin: real, vmax: real, vsteps: int)

  datatype Option<T> = None | Some(value: T)

  const Origin: Vec3 := Vec3(0.0, 0.0, 0.0)
  const NoTexCoord: Vec2 := Vec2(0.0, 0.0)
  const NoColor: Color := Color(0.0, 0.0, 0.0, 0.0)

  /** The triangle literal `(tri){a, b, c}`: every other field is zero. */
  function MakeTri(a: Vec3, b: Vec3, c: Vec3): Tri
  {
    Tri(a, b, c,
        NoTexCoord, NoTexCoord, NoTexCoord,
        Origin, Origin, Origin,
        NoColor, NoColor, NoColor,
        NoColor,
        false)
  }

  /** True iff everything but the corner positions of `t` is zero. */
  predicate OnlyPositions(t: Tri)
  {
    t == MakeTri(t.a, t.b, t.c)
  }

  /** Sum of the three corner depths; three times the centroid depth. */
  function DepthSum(t: Tri): real
  {
    t.a.z + t.b.z + t.c.z
  }

  function Min(a: int, b: int): int
  {
    if a <= b then a else b
  }

  function Abs(x: real): real
  {
    if x < 0.0 then -x else x
  }
}
