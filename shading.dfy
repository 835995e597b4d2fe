// `phongIllumination` in main.ts: the diffuse and specular contribution of one
// point light at a hit point, and the shadow test that replaces both by black
// when some other scene object lies between the hit point and the light.
module Shading {
  import opened Vectors
  import opened Scene
  import opened Config
  import opened Sphere

  /** Offset of the shadow-ray origin along the normal, and the least distance
      at which an analytic sphere may block the light. */
  const Epsilon: real := 0.00000001

  function LightVector(light: Light, point: Vec3): Vec3 {
    Sub(light.position, point)
  }

  /** `1 / |light - point|²`. The source divides by zero when the light sits on
      the hit point (giving infinity); the model gives 0 there. */
  function Attenuation(toLight: Vec3): (a: real)
    ensures 0.0 <= a
  {
    var d2 := LengthSq(toLight);
    SquareNonNegative(toLight.x);
    SquareNonNegative(toLight.y);
    SquareNonNegative(toLight.z);
    if d2 == 0.0 then 0.0 else 1.0 / d2
  }

  function LightDirection(env: Env, light: Light, point: Vec3): Vec3 {
    Normalize(LightVector(light, point), env.sqrt)
  }

  /** `max(normal · lightDirection, 0)`, with the normal as given. */
  function CosTheta(normal: Vec3, dir: Vec3): (c: real)
    ensures 0.0 <= c && Dot(normal, dir) <= c
    ensures 0.0 < Dot(normal, dir) ==> c == Dot(normal, dir)
  {
    Max(Dot(normal, dir), 0.0)
  }

  /** `max(normalize(normal) · lightDirection, 0)`: whether the light is in front. */
  function Front(env: Env, normal: Vec3, dir: Vec3): (f: real)
    ensures 0.0 <= f
  {
    Max(Dot(Normalize(normal, env.sqrt), dir), 0.0)
  }

  function LightIntensity(light: Light, point: Vec3): Color {
    ScaleC(light.color, light.intensity * 4.0 * Attenuation(LightVector(light, point)))
  }

  /** `Ld`: diffuse colour times light intensity, scaled by `cosTheta`. */
  function Diffuse(env: Env, light: Light, normal: Vec3, mat: Material, point: Vec3): Color {
    var dir := LightDirection(env, light, point);
    ScaleC(Modulate(mat.color, LightIntensity(light, point)), CosTheta(normal, dir))
  }

  /** `Ls`: black unless the light is in front; then the specular colour times
      the light intensity scaled by `shininess / 4`, times
      `max(cosGamma ^ shininess, 0)` where `shininess` is the material's divided
      by 5 and `cosGamma` the clamped cosine between the reflected light
      direction and the direction to the camera. */
  function Specular(env: Env, light: Light, normal: Vec3, mat: Material, point: Vec3): (ls: Color)
    ensures Front(env, normal, LightDirection(env, light, point)) == 0.0 ==> ls == Black
  {
    var dir := LightDirection(env, light, point);
    if Front(env, normal, dir) > 0.0 then
      var normalN := Normalize(normal, env.sqrt);
      var pVec := Scale(normalN, CosTheta(normal, dir));
      var reflVec := Sub(Scale(pVec, 2.0), dir);
      var reflVecN := Normalize(reflVec, env.sqrt);
      var viewDirN := Normalize(Sub(env.camera, point), env.sqrt);
      var cosGamma := Max(Dot(reflVecN, viewDirN), 0.0);
      var shininess := mat.shininess / 5.0;
      var cosGshin := Max(env.Power(cosGamma, shininess), 0.0);
      var specularLI := ScaleC(LightIntensity(light, point), shininess / 4.0);
      ScaleC(Modulate(mat.specular, specularLI), cosGshin)
    else Black
  }

  /** The shadow ray starts just off the surface, along the normal. */
  function ShadowOrigin(point: Vec3, normal: Vec3): Vec3 {
    Add(point, Scale(normal, Epsilon))
  }

  function ShadowRay(env: Env, light: Light, point: Vec3, normal: Vec3): Ray {
    var origin := ShadowOrigin(point, normal);
    Ray(origin, Normalize(Sub(light.position, origin), env.sqrt))
  }

  function LightDistance(env: Env, light: Light, point: Vec3, normal: Vec3): real {
    Length(Sub(light.position, ShadowOrigin(point, normal)), env.sqrt)
  }

  /** Whether scene child `obj` stands between the shadow ray's origin and
      the light. With "correct spheres" on, a sphere mesh does when the
      analytic test hits it and its near point lies strictly between
      `Epsilon` and the light; anything else does when the raycaster's nearest
      hit on it is closer than the light. */
  predicate Blocks(s: Settings, env: Env, shadow: Ray, lightDistance: real, obj: SceneObject) {
    if s.correctSpheres && obj.IsSphereMesh() then
      var hit := SphereIntersection(shadow, obj, env.sqrt);
      hit.Hit() &&
      var d := DistanceTo(shadow.origin, hit.near, env.sqrt);
      d < lightDistance && d > Epsilon
    else
      var hits := env.HitsOn(shadow, obj);
      |hits| > 0 && hits[0].distance < lightDistance
  }

  /** Whether scene child `obj` casts a shadow on `mesh`: the shaded mesh
      never shadows itself (objects are compared by identity, here by id). */
  predicate Occludes(s: Settings, env: Env, shadow: Ray, lightDistance: real, mesh: Mesh, obj: SceneObject) {
    obj.Id() != mesh.id && Blocks(s, env, shadow, lightDistance, obj)
  }

  /** No two scene children share an id, as no two objects share an identity. */
  predicate UniqueIds(children: seq<SceneObject>) {
    forall i, j :: 0 <= i < j < |children| ==> children[i].Id() != children[j].Id()
  }

  /** Some scene child blocks `light` as seen from `point`. */
  predicate Shadowed(s: Settings, env: Env, light: Light, mesh: Mesh, point: Vec3, normal: Vec3) {
    var shadow := ShadowRay(env, light, point, normal);
    var lightDistance := LightDistance(env, light, point, normal);
    exists i :: 0 <= i < |env.children| && Occludes(s, env, shadow, lightDistance, mesh, env.children[i])
  }

  /** With unique ids, the identity test skips exactly the shaded mesh: a
      scene child's mesh is in shadow iff some other child blocks the light. */
  lemma ShadowedByOthers(s: Settings, env: Env, light: Light, j: int, point: Vec3, normal: Vec3)
    requires UniqueIds(env.children)
    requires 0 <= j < |env.children| && env.children[j].MeshObject?
    ensures var shadow := ShadowRay(env, light, point, normal);
            var lightDistance := LightDistance(env, light, point, normal);
            Shadowed(s, env, light, env.children[j].mesh, point, normal)
            <==> exists i :: 0 <= i < |env.children| && i != j && Blocks(s, env, shadow, lightDistance, env.children[i])
  {
    var mesh := env.children[j].mesh;
    var shadow := ShadowRay(env, light, point, normal);
    var lightDistance := LightDistance(env, light, point, normal);
    forall i | 0 <= i < |env.children|
      ensures Occludes(s, env, shadow, lightDistance, mesh, env.children[i])
          <==> i != j && Blocks(s, env, shadow, lightDistance, env.children[i])
    {
      if i < j {
        assert env.children[i].Id() != env.children[j].Id();
      } else if j < i {
        assert env.children[j].Id() != env.children[i].Id();
      }
    }
  }

  /** The colour `phongIllumination` returns: black when shadows are on and the
      light is blocked, otherwise `Ld + Ls` added onto black. */
  function PhongColor(s: Settings, env: Env, light: Light, normal: Vec3, mesh: Mesh, point: Vec3): Color {
    if s.shadows && Shadowed(s, env, light, mesh, point, normal) then Black
    else AddC(AddC(Black, Diffuse(env, light, normal, mesh.material, point)),
              Specular(env, light, normal, mesh.material, point))
  }

  /** The loop over `scene.children` with its `inShadow` flag and early `break`. */
  method InShadow(s: Settings, env: Env, light: Light, mesh: Mesh, point: Vec3, normal: Vec3)
    returns (inShadow: bool)
    ensures inShadow <==> Shadowed(s, env, light, mesh, point, normal)
  {
    var shadow := ShadowRay(env, light, point, normal);
    var lightDistance := LightDistance(env, light, point, normal);
    inShadow := false;
    var i := 0;
    while i < |env.children|
      invariant 0 <= i <= |env.children|
      invariant !inShadow
      invariant forall j :: 0 <= j < i ==> !Occludes(s, env, shadow, lightDistance, mesh, env.children[j])
    {
      var obj := env.children[i];
      if obj.Id() != mesh.id {
        if s.correctSpheres && obj.IsSphereMesh() {
          var hit := SphereIntersection(shadow, obj, env.sqrt);
          if hit.Hit() {
            var distanceToIntersection := DistanceTo(shadow.origin, hit.near, env.sqrt);
            if distanceToIntersection < lightDistance && distanceToIntersection > Epsilon {
              inShadow := true;
              break;
            }
          }
        } else {
          var hits := env.HitsOn(shadow, obj);
          if |hits| > 0 && hits[0].distance < lightDistance {
            inShadow := true;
            break;
          }
        }
      }
      i := i + 1;
    }
  }

  /** `phongIllumination`: the shading terms, then the shadow test when shadows are on. */
  method PhongIllumination(s: Settings, env: Env, light: Light, normal: Vec3, mesh: Mesh, point: Vec3)
    returns (phong: Color)
    ensures phong == PhongColor(s, env, light, normal, mesh, point)
  {
    phong := Black;
    var ld := Diffuse(env, light, normal, mesh.material, point);
    var ls := Specular(env, light, normal, mesh.material, point);
    if s.shadows {
      var inShadow := InShadow(s, env, light, mesh, point, normal);
      if inShadow {
        return;
      }
    }
    phong := AddC(phong, ld);
    phong := AddC(phong, ls);
  }

  /** A light with non-negative colour and intensity shining on a material with
      non-negative colours and shininess never contributes a negative channel. */
  lemma PhongNonNegative(s: Settings, env: Env, light: Light, normal: Vec3, mesh: Mesh, point: Vec3)
    requires NonNegative(light.color) && 0.0 <= light.intensity
    requires NonNegative(mesh.material.color) && NonNegative(mesh.material.specular)
    requires 0.0 <= mesh.material.shininess
    ensures NonNegative(PhongColor(s, env, light, normal, mesh, point))
  {
    var mat := mesh.material;
    var att := Attenuation(LightVector(light, point));
    MulNonNegative(light.intensity, 4.0);
    MulNonNegative(light.intensity * 4.0, att);
    var li := LightIntensity(light, point);
    ScaleNonNegative(light.color, light.intensity * 4.0 * att);
    ModulateNonNegative(mat.color, li);
    var dir := LightDirection(env, light, point);
    ScaleNonNegative(Modulate(mat.color, li), CosTheta(normal, dir));
    if Front(env, normal, dir) > 0.0 {
      var shininess := mat.shininess / 5.0;
      ScaleNonNegative(li, shininess / 4.0);
      var specularLI := ScaleC(li, shininess / 4.0);
      ModulateNonNegative(mat.specular, specularLI);
      var normalN := Normalize(normal, env.sqrt);
      var pVec := Scale(normalN, CosTheta(normal, dir));
      var reflVecN := Normalize(Sub(Scale(pVec, 2.0), dir), env.sqrt);
      var viewDirN := Normalize(Sub(env.camera, point), env.sqrt);
      var cosGamma := Max(Dot(reflVecN, viewDirN), 0.0);
      ScaleNonNegative(Modulate(mat.specular, specularLI), Max(env.Power(cosGamma, shininess), 0.0));
    }
  }

  /** Adding scene objects can only put a point into shadow, never take it out. */
  lemma ShadowedMonotonic(s: Settings, env: Env, more: seq<SceneObject>, light: Light, mesh: Mesh, point: Vec3, normal: Vec3)
    requires Shadowed(s, env, light, mesh, point, normal)
    ensures Shadowed(s, env.(children := env.children + more), light, mesh, point, normal)
  {
    var shadow := ShadowRay(env, light, point, normal);
    var lightDistance := LightDistance(env, light, point, normal);
    var i :| 0 <= i < |env.children| && Occludes(s, env, shadow, lightDistance, mesh, env.children[i]);
    var bigger := env.(children := env.children + more);
    assert bigger.children[i] == env.children[i];
    assert Occludes(s, bigger, shadow, lightDistance, mesh, bigger.children[i]);
  }
}
