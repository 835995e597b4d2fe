// `pixelColor` in main.ts: shade the nearest object a ray hits. There are four
// outcomes: black when nothing is hit, the flat material colour with Phong off,
// the sum of the lights' Phong terms with Phong on, and with mirrors on a blend
// of that sum with the colour seen along the reflected ray, traced with one
// less level of recursion.
module Tracer {
  import opened Vectors
  import opened Scene
  import opened Config
  import opened Selection
  import opened Shading

  /** Offset of a reflected ray's origin along the normal, against self-hits. */
  const Bias: real := 0.001

  /** The Phong terms of `lights[0]`, and also of `lights[1]` and `lights[2]`
      when all lights are on, added onto black in that order. */
  function LocalColor(s: Settings, env: Env, top: Top): Color {
    var bright := PhongColor(s, env, env.lights.first, top.normal, top.mesh, top.point);
    if s.alllights then
      var red := PhongColor(s, env, env.lights.second, top.normal, top.mesh, top.point);
      var blue := PhongColor(s, env, env.lights.third, top.normal, top.mesh, top.point);
      AddC(AddC(AddC(Black, bright), red), blue)
    else AddC(Black, bright)
  }

  /** Whether the mirror branch is taken for the selected object. */
  predicate Recurses(s: Settings, top: Top, depth: int) {
    s.phong && s.mirrors && top.mesh.material.mirror && depth > 0
  }

  /** The direction to the camera, mirrored in the normal and negated, from a
      point just off the surface. The camera position is used at every level
      of recursion, not the origin of the incoming ray. */
  function ReflectedRay(env: Env, top: Top): Ray {
    var viewDirection := Normalize(Sub(env.camera, top.point), env.sqrt);
    var refl := Negate(Reflect(viewDirection, top.normal));
    Ray(Add(top.point, Scale(top.normal, Bias)), refl)
  }

  /** The colour `pixelColor(ray, depth)` returns. */
  function TracedColor(s: Settings, env: Env, ray: Ray, depth: int): Color
    decreases if depth > 0 then depth else 0
  {
    match Nearest(s, env, ray)
    case None => Black
    case Some(top) =>
      if !s.phong then AddC(Black, top.mesh.material.color)
      else if Recurses(s, top, depth) then
        Lerp(LocalColor(s, env, top), TracedColor(s, env, ReflectedRay(env, top), depth - 1),
             top.mesh.material.reflectivity)
      else LocalColor(s, env, top)
  }

  /** How many invocations of `pixelColor` one call makes, itself included:
      at least one and at most `depth + 1`. */
  function Calls(s: Settings, env: Env, ray: Ray, depth: int): (n: nat)
    ensures 1 <= n <= (if depth > 0 then depth else 0) + 1
    decreases if depth > 0 then depth else 0
  {
    match Nearest(s, env, ray)
    case None => 1
    case Some(top) =>
      if Recurses(s, top, depth) then 1 + Calls(s, env, ReflectedRay(env, top), depth - 1) else 1
  }

  /** When the recursion stops before the budget runs out, a larger budget
      makes the same number of invocations. */
  lemma {:induction false} EnoughBudgetCalls(s: Settings, env: Env, ray: Ray, depth: int, other: int)
    requires Calls(s, env, ray, depth) <= depth <= other
    ensures Calls(s, env, ray, other) == Calls(s, env, ray, depth)
    decreases depth
  {
    match Nearest(s, env, ray)
    case None =>
    case Some(top) =>
      if Recurses(s, top, depth) {
        var refl := ReflectedRay(env, top);
        assert Recurses(s, top, other);
        assert Calls(s, env, ray, depth) == 1 + Calls(s, env, refl, depth - 1);
        EnoughBudgetCalls(s, env, refl, depth - 1, other - 1);
      } else {
        assert depth > 0;
        assert !Recurses(s, top, other);
      }
  }

  /** When `pixelColor` makes a single invocation with budget to spare, a
      larger budget gives the same colour: the budget only ever cuts mirror
      recursion short. */
  lemma SingleCallAnyBudget(s: Settings, env: Env, ray: Ray, depth: int, other: int)
    requires Calls(s, env, ray, depth) == 1 <= depth <= other
    ensures TracedColor(s, env, ray, other) == TracedColor(s, env, ray, depth)
  {
    MirrorCalls(s, env, ray, depth);
    NothingHit(s, env, ray, depth, other);
    NoMirrorStep(s, env, ray, depth, other);
  }

  /** A mirror hit makes one invocation more than its reflected ray. */
  lemma MirrorCalls(s: Settings, env: Env, ray: Ray, depth: int)
    ensures var hit := Nearest(s, env, ray);
            hit.Some? && Recurses(s, hit.value, depth) ==>
              Calls(s, env, ray, depth) == 1 + Calls(s, env, ReflectedRay(env, hit.value), depth - 1)
  {
  }

  lemma NothingHit(s: Settings, env: Env, ray: Ray, depth: int, other: int)
    ensures Nearest(s, env, ray).None? ==> TracedColor(s, env, ray, other) == TracedColor(s, env, ray, depth)
  {
  }

  /** Without recursion at a positive budget, no larger budget recurses either. */
  lemma NoMirrorStep(s: Settings, env: Env, ray: Ray, depth: int, other: int)
    requires 0 < depth <= other
    ensures var hit := Nearest(s, env, ray);
            hit.Some? && !Recurses(s, hit.value, depth) ==>
              TracedColor(s, env, ray, other) == TracedColor(s, env, ray, depth)
  {
    var hit := Nearest(s, env, ray);
    if hit.Some? && !Recurses(s, hit.value, depth) {
      assert !Recurses(s, hit.value, other);
    }
  }

  /** With Phong off the colour is the flat material colour of the selected
      object, or black when nothing is hit: neither the lights nor the
      recursion budget matter. */
  lemma FlatIgnoresLightsAndDepth(s: Settings, env: Env, ray: Ray, depth: int, lights: Lights, other: int)
    requires !s.phong
    ensures TracedColor(s, env, ray, depth) == TracedColor(s, env.(lights := lights), ray, other)
    ensures TracedColor(s, env, ray, depth)
         == match Nearest(s, env, ray) case None => Black case Some(top) => top.mesh.material.color
  {
    assert Offers(s, env.(lights := lights), ray) == Offers(s, env, ray);
  }

  /** Without "all lights" only `lights[0]` is ever consulted, at every level
      of mirror recursion. */
  lemma {:induction false} OnlyFirstLight(s: Settings, env: Env, ray: Ray, depth: int, second: Light, third: Light)
    requires !s.alllights
    ensures TracedColor(s, env, ray, depth)
         == TracedColor(s, env.(lights := Lights(env.lights.first, second, third)), ray, depth)
    decreases if depth > 0 then depth else 0
  {
    var other := env.(lights := Lights(env.lights.first, second, third));
    assert Offers(s, other, ray) == Offers(s, env, ray);
    match Nearest(s, env, ray)
    case None =>
    case Some(top) =>
      assert LocalColor(s, other, top) == LocalColor(s, env, top) by {
        PhongIgnoresOtherLights(s, env, other, env.lights.first, top);
      }
      assert ReflectedRay(other, top) == ReflectedRay(env, top);
      if Recurses(s, top, depth) {
        OnlyFirstLight(s, env, ReflectedRay(env, top), depth - 1, second, third);
      }
  }

  /** The Phong term of one light does not look at the other lights. */
  lemma PhongIgnoresOtherLights(s: Settings, env: Env, other: Env, light: Light, top: Top)
    requires other == env.(lights := other.lights)
    ensures PhongColor(s, other, light, top.normal, top.mesh, top.point)
         == PhongColor(s, env, light, top.normal, top.mesh, top.point)
  {
    assert Shadowed(s, other, light, top.mesh, top.point, top.normal)
       <==> Shadowed(s, env, light, top.mesh, top.point, top.normal);
  }

  /** A mirror's colour is a blend: with its reflectivity a fraction, each
      channel lies between that of the local shading and that of the colour
      seen along the reflected ray. */
  lemma MirrorBlendWithin(s: Settings, env: Env, ray: Ray, depth: int)
    requires Nearest(s, env, ray).Some? && Recurses(s, Nearest(s, env, ray).value, depth)
    requires 0.0 <= Nearest(s, env, ray).value.mesh.material.reflectivity <= 1.0
    ensures var top := Nearest(s, env, ray).value;
            Within(TracedColor(s, env, ray, depth),
                   LocalColor(s, env, top), TracedColor(s, env, ReflectedRay(env, top), depth - 1))
  {
    var top := Nearest(s, env, ray).value;
    LerpWithin(LocalColor(s, env, top), TracedColor(s, env, ReflectedRay(env, top), depth - 1),
               top.mesh.material.reflectivity);
  }

  /** Without mirror recursion the budget is never consulted: with mirrors
      off, or with no budget left on either side, every depth gives the same
      colour. */
  lemma DepthIrrelevantWithoutRecursion(s: Settings, env: Env, ray: Ray, depth: int, other: int)
    requires !s.mirrors || (depth <= 0 && other <= 0)
    ensures TracedColor(s, env, ray, depth) == TracedColor(s, env, ray, other)
  {
    match Nearest(s, env, ray)
    case None =>
    case Some(top) =>
      assert !Recurses(s, top, depth) && !Recurses(s, top, other);
  }

  predicate ProperLight(light: Light) {
    NonNegative(light.color) && 0.0 <= light.intensity
  }

  /** Non-negative colours and shininess, and a reflectivity that is a fraction. */
  predicate ProperMaterial(m: Material) {
    NonNegative(m.color) && NonNegative(m.specular) && 0.0 <= m.shininess && 0.0 <= m.reflectivity <= 1.0
  }

  /** Every light, and every mesh that a ray can select, is proper. */
  ghost predicate ProperScene(env: Env) {
    && ProperLight(env.lights.first) && ProperLight(env.lights.second) && ProperLight(env.lights.third)
    && (forall j :: 0 <= j < |env.children| && env.children[j].MeshObject? ==>
          ProperMaterial(env.children[j].mesh.material))
    && (forall ray: Ray, i :: 0 <= i < |env.Candidates(ray)| && env.Candidates(ray)[i].obj.MeshObject? ==>
          ProperMaterial(env.Candidates(ray)[i].obj.mesh.material))
  }

  /** The selected object is always one of the raycaster's meshes or a scene child. */
  lemma NearestIsProper(s: Settings, env: Env, ray: Ray)
    requires ProperScene(env)
    requires Nearest(s, env, ray).Some?
    ensures ProperMaterial(Nearest(s, env, ray).value.mesh.material)
  {
    var cands := env.Candidates(ray);
    var offers := Offers(s, env, ray);
    FoldSome(offers);
    var k :| FirstMinimum(offers, k) && Nearest(s, env, ray) == offers[k];
    if k < |cands| {
      assert offers[k] == TriangleOffer(s, cands[k]);
      assert cands[k].obj.MeshObject? && offers[k].value.mesh == cands[k].obj.mesh;
    } else {
      var j := k - |cands|;
      assert offers[k] == SphereOffer(ray, env.sqrt, env.children[j]);
      assert env.children[j].MeshObject? && offers[k].value.mesh == env.children[j].mesh;
    }
  }

  lemma LocalNonNegative(s: Settings, env: Env, top: Top)
    requires ProperLight(env.lights.first) && ProperLight(env.lights.second) && ProperLight(env.lights.third)
    requires ProperMaterial(top.mesh.material)
    ensures NonNegative(LocalColor(s, env, top))
  {
    PhongNonNegative(s, env, env.lights.first, top.normal, top.mesh, top.point);
    PhongNonNegative(s, env, env.lights.second, top.normal, top.mesh, top.point);
    PhongNonNegative(s, env, env.lights.third, top.normal, top.mesh, top.point);
  }

  /** In a proper scene no colour channel is ever negative, at any depth. */
  lemma {:induction false} TracedColorNonNegative(s: Settings, env: Env, ray: Ray, depth: int)
    requires ProperScene(env)
    ensures NonNegative(TracedColor(s, env, ray, depth))
    decreases if depth > 0 then depth else 0
  {
    match Nearest(s, env, ray)
    case None =>
    case Some(top) =>
      NearestIsProper(s, env, ray);
      if s.phong {
        LocalNonNegative(s, env, top);
        if Recurses(s, top, depth) {
          TracedColorNonNegative(s, env, ReflectedRay(env, top), depth - 1);
          LerpNonNegative(LocalColor(s, env, top), TracedColor(s, env, ReflectedRay(env, top), depth - 1),
                          top.mesh.material.reflectivity);
        }
      }
  }

  /** `pixelColor`, with the selection loops and the Phong calls as methods. */
  method PixelColor(s: Settings, env: Env, ray: Ray, depth: int) returns (finColor: Color)
    ensures finColor == TracedColor(s, env, ray, depth)
    decreases if depth > 0 then depth else 0
  {
    finColor := Black;
    var topObject := SelectNearest(s, env, ray);
    if topObject.Some? {
      var top := topObject.value;
      var reflex := top.mesh.material.reflectivity;
      var mirBol := top.mesh.material.mirror;
      if s.phong {
        var brightLight := PhongIllumination(s, env, env.lights.first, top.normal, top.mesh, top.point);
        finColor := AddC(finColor, brightLight);
        if s.alllights {
          var redLight := PhongIllumination(s, env, env.lights.second, top.normal, top.mesh, top.point);
          var blueLight := PhongIllumination(s, env, env.lights.third, top.normal, top.mesh, top.point);
          finColor := AddC(finColor, redLight);
          finColor := AddC(finColor, blueLight);
        }
        assert finColor == LocalColor(s, env, top);
        if s.mirrors && mirBol && depth > 0 {
          var viewDirection := Normalize(Sub(env.camera, top.point), env.sqrt);
          var refl := Negate(Reflect(viewDirection, top.normal));
          var biasedIntersectionPoint := Add(top.point, Scale(top.normal, Bias));
          var reflCol := PixelColor(s, env, Ray(biasedIntersectionPoint, refl), depth - 1);
          finColor := Lerp(finColor, reflCol, reflex);
          return;
        }
      } else {
        finColor := AddC(finColor, top.mesh.material.color);
      }
    }
  }
}
