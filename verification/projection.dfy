/** World-to-camera transform and perspective projection
    (3dEngine.c:59-80).

    The rotation `vectorRotate` is built from sines and cosines and is not
    part of this model: the transform takes it as a parameter
    `rotate(v, angles)`. */
module Projection {
  import opened Types
  import opened Vectors

  /** Height over width of the window as the C code computes it,
      `(float)SCREEN_HEIGHT / SCREEN_WIDTH`; 0.625 is exact in binary. */
  const ASPECT_RATIO: real := SCREEN_HEIGHT / SCREEN_WIDTH

  /** Translate by the camera position, then rotate by the negated camera
      angles. */
  function TransformVector(v: Vec3, cam: Camera, rotate: (Vec3, Vec3) -> Vec3): Vec3
  {
    rotate(Sub(v, cam.pos), Negate(cam.rot))
  }

  /** Each corner is transformed on its own; the literal zeroes every
      other field of the triangle. */
  function TransformTriangle(t: Tri, cam: Camera, rotate: (Vec3, Vec3) -> Vec3): (r: Tri)
    ensures r.a == TransformVector(t.a, cam, rotate)
    ensures r.b == TransformVector(t.b, cam, rotate)
    ensures r.c == TransformVector(t.c, cam, rotate)
    ensures OnlyPositions(r)
  {
    MakeTri(TransformVector(t.a, cam, rotate),
            TransformVector(t.b, cam, rotate),
            TransformVector(t.c, cam, rotate))
  }

  /** The camera transform sees only positions relative to the camera:
      moving a point and the camera by the same offset leaves its camera
      coordinates unchanged, whatever the rotation. */
  lemma TransformVectorTranslationInvariant(v: Vec3, d: Vec3, cam: Camera, rotate: (Vec3, Vec3) -> Vec3)
    ensures TransformVector(Add(v, d), cam.(pos := Add(cam.pos, d)), rotate) == TransformVector(v, cam, rotate)
  {
    assert Sub(Add(v, d), Add(cam.pos, d)) == Sub(v, cam.pos);
  }

  /** For a rotation that fixes the origin, as every rotation does, the
      camera's own position becomes the origin of camera space. */
  lemma CameraAtOrigin(cam: Camera, rotate: (Vec3, Vec3) -> Vec3)
    requires forall angles :: rotate(Origin, angles) == Origin
    ensures TransformVector(cam.pos, cam, rotate) == Origin
  {
    assert Sub(cam.pos, cam.pos) == Origin;
  }

  /** `t` moved by the offset `d`. */
  function Translate(t: Tri, d: Vec3): Tri
  {
    t.(a := Add(t.a, d), b := Add(t.b, d), c := Add(t.c, d))
  }

  /** Moving a triangle and the camera together does not change the
      transformed triangle, and the transform forgets everything about the
      input but its corner positions. */
  lemma TransformTriangleTranslationInvariant(t: Tri, d: Vec3, cam: Camera, rotate: (Vec3, Vec3) -> Vec3)
    ensures TransformTriangle(Translate(t, d), cam.(pos := Add(cam.pos, d)), rotate) == TransformTriangle(t, cam, rotate)
    ensures TransformTriangle(t, cam, rotate) == TransformTriangle(MakeTri(t.a, t.b, t.c), cam, rotate)
  {
    TransformVectorTranslationInvariant(t.a, d, cam, rotate);
    TransformVectorTranslationInvariant(t.b, d, cam, rotate);
    TransformVectorTranslationInvariant(t.c, d, cam, rotate);
  }

  /** Perspective divide by depth. A point on the camera plane collapses
      to the origin; otherwise the projected `x`, `y` times the depth give
      back the scaled input. The depth always passes through. */
  function ProjectVector(v: Vec3, aspect: real, f: real): (r: Vec3)
    ensures r.z == v.z
    ensures v.z == 0.0 ==> r == Origin
    ensures v.z != 0.0 ==> r.x * v.z == aspect * f * v.x
    ensures v.z != 0.0 ==> r.y * v.z == f * v.y
  {
    if v.z == 0.0 then Origin
    else Vec3(aspect * f * v.x / v.z, f * v.y / v.z, v.z)
  }

  /** Each corner is projected on its own; depths pass through unchanged
      and every other field of the triangle is zero. */
  function ProjectTriangle(t: Tri, aspect: real, f: real): (r: Tri)
    ensures r.a == ProjectVector(t.a, aspect, f)
    ensures r.b == ProjectVector(t.b, aspect, f)
    ensures r.c == ProjectVector(t.c, aspect, f)
    ensures r.a.z == t.a.z && r.b.z == t.b.z && r.c.z == t.c.z
    ensures DepthSum(r) == DepthSum(t)
    ensures OnlyPositions(r)
  {
    MakeTri(ProjectVector(t.a, aspect, f),
            ProjectVector(t.b, aspect, f),
            ProjectVector(t.c, aspect, f))
  }

  /** Inverse of the perspective divide, for a point off the camera plane. */
  function Unproject(p: Vec3, aspect: real, f: real): Vec3
    requires p.z != 0.0 && aspect != 0.0 && f != 0.0
  {
    Vec3(p.x * p.z / (aspect * f), p.y * p.z / f, p.z)
  }

  /** Off the camera plane the projection loses nothing: it can be undone. */
  lemma ProjectionInvertible(v: Vec3, aspect: real, f: real)
    requires v.z != 0.0 && aspect != 0.0 && f != 0.0
    ensures ProjectVector(v, aspect, f).z != 0.0
    ensures Unproject(ProjectVector(v, aspect, f), aspect, f) == v
  {
    var p := ProjectVector(v, aspect, f);
    assert p.x * v.z == aspect * f * v.x;
    assert p.x * p.z / (aspect * f) == v.x;
    assert p.y * p.z / f == v.y;
  }
}
