// Nearest-hit selection, the first half of `pixelColor` in main.ts: a running
// minimum over the raycaster's triangle hits, followed (with "correct
// spheres" on) by a second running minimum over the analytic sphere tests of
// the scene's sphere meshes.
//
// Each candidate of either loop is first turned into an offer (`Some` when the
// loop would consider it, with the distance it competes with); both loops then
// perform the same step: take the offer when nothing is selected yet or when it
// is strictly closer. `Fold` runs that step over a sequence of offers and is
// the specification the loops of `SelectNearest` are proved against.
module Selection {
  import opened Vectors
  import opened Scene
  import opened Config
  import opened Sphere

  datatype Option<T> = None | Some(value: T)

  /** What the loops track: `topObject`, `minDistance`, `intersectionPoint`
      and `normal`. `minDistance` starts at infinity, which is `None` here. */
  datatype Top = Top(mesh: Mesh, distance: real, point: Vec3, normal: Vec3)

  /** A triangle hit is considered when it struck a mesh, and, with "correct
      spheres" on, only when that mesh is not a sphere (spheres are then
      tested analytically instead). */
  function TriangleOffer(s: Settings, c: Candidate): (r: Option<Top>)
    ensures r.Some? <==> c.obj.MeshObject? && !(s.correctSpheres && c.obj.IsSphereMesh())
    ensures r.Some? ==> r.value == Top(c.obj.mesh, c.distance, c.point, c.normal)
  {
    var drawSpheres := !(s.correctSpheres && c.obj.IsSphereMesh());
    if c.obj.MeshObject? && drawSpheres then Some(Top(c.obj.mesh, c.distance, c.point, c.normal))
    else None
  }

  /** A scene child is considered by the second loop when it is a sphere mesh
      that the analytic test hits. It competes with the distance from the ray
      origin to the sphere's centre, not with the distance to the hit point;
      the hit point is the near chord point and the normal points from the
      centre to it. */
  function SphereOffer(ray: Ray, sqrt: real -> real, obj: SceneObject): (r: Option<Top>)
    ensures r.Some? <==> obj.IsSphereMesh() && SphereIntersection(ray, obj, sqrt).Hit()
    ensures r.Some? ==>
      var hit := SphereIntersection(ray, obj, sqrt);
      r.value.mesh == obj.mesh &&
      r.value.distance == DistanceTo(ray.origin, obj.mesh.position, sqrt) &&
      r.value.point == hit.near &&
      r.value.normal == Normalize(Sub(hit.near, obj.mesh.position), sqrt)
  {
    if obj.MeshObject? && obj.mesh.IsSphere() then
      var hit := SphereIntersection(ray, obj, sqrt);
      if hit.Hit() then
        var point := hit.near;
        Some(Top(obj.mesh, DistanceTo(ray.origin, obj.mesh.position, sqrt), point,
                 Normalize(Sub(point, obj.mesh.position), sqrt)))
      else None
    else None
  }

  /** One iteration of either loop: a strictly closer offer replaces the selection. */
  function Step(sel: Option<Top>, offer: Option<Top>): Option<Top> {
    if offer.Some? && (sel.None? || offer.value.distance < sel.value.distance) then offer else sel
  }

  /** The selection after running `Step` over `offers` from the left, starting with nothing. */
  function Fold(offers: seq<Option<Top>>): Option<Top> {
    if offers == [] then None else Step(Fold(offers[..|offers| - 1]), offers[|offers| - 1])
  }

  /** One more offer is one more step. */
  lemma FoldSnoc(offers: seq<Option<Top>>, offer: Option<Top>)
    ensures Fold(offers + [offer]) == Step(Fold(offers), offer)
  {
    assert (offers + [offer])[..|offers|] == offers;
  }

  /** The fold over one more offer of `offers`. */
  lemma FoldPrefix(offers: seq<Option<Top>>, i: int)
    requires 0 <= i < |offers|
    ensures Fold(offers[..i + 1]) == Step(Fold(offers[..i]), offers[i])
  {
    assert offers[..i + 1] == offers[..i] + [offers[i]];
    FoldSnoc(offers[..i], offers[i]);
  }

  /** The fold over `earlier` and one more offer of `offers`. */
  lemma FoldAfter(earlier: seq<Option<Top>>, offers: seq<Option<Top>>, j: int)
    requires 0 <= j < |offers|
    ensures Fold(earlier + offers[..j + 1]) == Step(Fold(earlier + offers[..j]), offers[j])
  {
    assert earlier + offers[..j + 1] == (earlier + offers[..j]) + [offers[j]];
    FoldSnoc(earlier + offers[..j], offers[j]);
  }

  function TriangleOffers(s: Settings, cands: seq<Candidate>): (r: seq<Option<Top>>)
    ensures |r| == |cands|
  {
    seq(|cands|, i requires 0 <= i < |cands| => TriangleOffer(s, cands[i]))
  }

  function SphereOffers(ray: Ray, sqrt: real -> real, children: seq<SceneObject>): (r: seq<Option<Top>>)
    ensures |r| == |children|
  {
    seq(|children|, i requires 0 <= i < |children| => SphereOffer(ray, sqrt, children[i]))
  }

  /** Everything the two loops look at, in the order they look at it. */
  function Offers(s: Settings, env: Env, ray: Ray): seq<Option<Top>> {
    TriangleOffers(s, env.Candidates(ray))
      + (if s.correctSpheres then SphereOffers(ray, env.sqrt, env.children) else [])
  }

  /** The object `pixelColor` shades for `ray` (`None`: nothing was hit). */
  function Nearest(s: Settings, env: Env, ray: Ray): Option<Top> {
    Fold(Offers(s, env, ray))
  }

  /** `offers[k]` has the least distance of all offers, and every offer before
      it is strictly farther: it is the first of the closest. */
  predicate FirstMinimum(offers: seq<Option<Top>>, k: int) {
    && 0 <= k < |offers| && offers[k].Some?
    && (forall i :: 0 <= i < |offers| && offers[i].Some? ==> offers[k].value.distance <= offers[i].value.distance)
    && (forall i :: 0 <= i < k && offers[i].Some? ==> offers[k].value.distance < offers[i].value.distance)
  }

  /** A selection that comes from the raycaster's hits is a mesh, and with
      "correct spheres" on never a sphere: those are left to the analytic
      test. The selection carries that hit's mesh, distance, point and normal. */
  lemma TriangleSelectionNotSphere(s: Settings, env: Env, ray: Ray, k: int)
    requires FirstMinimum(Offers(s, env, ray), k) && k < |env.Candidates(ray)|
    ensures var c := env.Candidates(ray)[k];
            && c.obj.MeshObject? && !(s.correctSpheres && c.obj.IsSphereMesh())
            && Offers(s, env, ray)[k].value == Top(c.obj.mesh, c.distance, c.point, c.normal)
  {
    assert Offers(s, env, ray)[k] == TriangleOffer(s, env.Candidates(ray)[k]);
  }

  /** A selection that comes from the analytic test is a sphere child that
      the test hits, with "correct spheres" on. It competes with the distance
      to the sphere's centre, which is never below the near root `t0`; its
      point is the near chord point, on the sphere whenever `t0 > 0`. */
  lemma SphereSelectionOnSphere(s: Settings, env: Env, ray: Ray, k: int)
    requires IsSqrt(env.sqrt) && LengthSq(ray.direction) == 1.0
    requires FirstMinimum(Offers(s, env, ray), k) && |env.Candidates(ray)| <= k
    ensures s.correctSpheres && k - |env.Candidates(ray)| < |env.children|
    ensures var obj := env.children[k - |env.Candidates(ray)|];
            var top := Offers(s, env, ray)[k].value;
            var hit := SphereIntersection(ray, obj, env.sqrt);
            var radius := obj.mesh.geometry.radius;
            && obj.IsSphereMesh() && hit.Hit()
            && top.mesh == obj.mesh && top.point == hit.near
            && top.distance == DistanceTo(ray.origin, obj.mesh.position, env.sqrt)
            && hit.t0 <= top.distance
            && (hit.t0 > 0.0 ==> LengthSq(Sub(top.point, obj.mesh.position)) == radius * radius)
  {
    var cands := env.Candidates(ray);
    assert s.correctSpheres;
    var obj := env.children[k - |cands|];
    assert Offers(s, env, ray)[k] == SphereOffer(ray, env.sqrt, obj);
    CentreDistanceNotBelowNearHit(ray, obj, env.sqrt);
    NearPointOnSphere(ray, obj, env.sqrt);
  }

  /** The fold selects nothing exactly when nothing is offered. */
  lemma {:induction false} FoldNone(offers: seq<Option<Top>>)
    ensures Fold(offers).None? <==> forall i :: 0 <= i < |offers| ==> offers[i].None?
  {
    if offers != [] {
      var n := |offers|;
      var init := offers[..n - 1];
      FoldNone(init);
      assert forall i :: 0 <= i < n - 1 ==> init[i] == offers[i];
    }
  }

  /** When something is selected, it is the first of the closest offers. */
  lemma {:induction false} FoldSome(offers: seq<Option<Top>>)
    requires Fold(offers).Some?
    ensures exists k :: FirstMinimum(offers, k) && Fold(offers) == offers[k]
  {
    var n := |offers|;
    var init := offers[..n - 1];
    var last := offers[n - 1];
    assert offers == init + [last];
    var prev := Fold(init);
    if prev.Some? {
      FoldSome(init);
      var j :| FirstMinimum(init, j) && prev == init[j];
      if last.Some? && last.value.distance < prev.value.distance {
        FirstMinimumNew(init, last);
        assert FirstMinimum(offers, n - 1);
      } else {
        FirstMinimumKept(init, last, j);
        assert FirstMinimum(offers, j);
      }
    } else {
      FoldNone(init);
      FirstMinimumNew(init, last);
      assert FirstMinimum(offers, n - 1);
    }
  }

  /** A new offer strictly closer than every earlier one is the first of the closest. */
  lemma FirstMinimumNew(init: seq<Option<Top>>, last: Option<Top>)
    requires last.Some?
    requires (forall i :: 0 <= i < |init| ==> init[i].None?)
          || (exists j :: FirstMinimum(init, j) && last.value.distance < init[j].value.distance)
    ensures FirstMinimum(init + [last], |init|)
  {
    var all := init + [last];
    forall i | 0 <= i < |init| && all[i].Some?
      ensures last.value.distance < all[i].value.distance
    {
      assert all[i] == init[i];
    }
  }

  /** An offer that is not strictly closer leaves the first of the closest in place. */
  lemma FirstMinimumKept(init: seq<Option<Top>>, last: Option<Top>, j: int)
    requires FirstMinimum(init, j)
    requires !(last.Some? && last.value.distance < init[j].value.distance)
    ensures FirstMinimum(init + [last], j)
  {
    var all := init + [last];
    forall i | 0 <= i < |all| && all[i].Some?
      ensures all[j].value.distance <= all[i].value.distance
    {
      if i < |init| {
        assert all[i] == init[i];
      }
    }
    forall i | 0 <= i < j && all[i].Some?
      ensures all[j].value.distance < all[i].value.distance
    {
      assert all[i] == init[i];
    }
  }

  /** Conversely, the first of the closest offers is the one selected. */
  lemma {:induction false} FoldFirstMinimum(offers: seq<Option<Top>>, k: int)
    requires FirstMinimum(offers, k)
    ensures Fold(offers) == offers[k]
  {
    var n := |offers|;
    var init := offers[..n - 1];
    assert forall i :: 0 <= i < n - 1 ==> init[i] == offers[i];
    var prev := Fold(init);
    if k == n - 1 {
      if prev.Some? {
        FoldSome(init);
        var j :| FirstMinimum(init, j) && prev == init[j];
        assert offers[j] == init[j];
      }
    } else {
      assert FirstMinimum(init, k);
      FoldFirstMinimum(init, k);
    }
  }

  /** In the terms of `pixelColor`: nothing is selected exactly when no triangle
      hit is accepted and (with "correct spheres" on) no sphere is hit
      analytically; otherwise the selection is the first of the closest offers. */
  lemma NearestIsFirstOfClosest(s: Settings, env: Env, ray: Ray)
    ensures var cands := env.Candidates(ray);
            Nearest(s, env, ray).None? <==>
              (forall i :: 0 <= i < |cands| ==> TriangleOffer(s, cands[i]).None?) &&
              (s.correctSpheres ==> forall j :: 0 <= j < |env.children| ==> SphereOffer(ray, env.sqrt, env.children[j]).None?)
    ensures Nearest(s, env, ray).Some? ==>
              exists k :: FirstMinimum(Offers(s, env, ray), k) && Nearest(s, env, ray) == Offers(s, env, ray)[k]
  {
    var cands := env.Candidates(ray);
    var offers := Offers(s, env, ray);
    var tri := TriangleOffers(s, cands);
    FoldNone(offers);
    assert forall i :: 0 <= i < |cands| ==> offers[i] == TriangleOffer(s, cands[i]);
    if s.correctSpheres {
      assert forall j :: 0 <= j < |env.children| ==>
        offers[|cands| + j] == SphereOffer(ray, env.sqrt, env.children[j]);
    }
    if Nearest(s, env, ray).Some? {
      FoldSome(offers);
    }
  }

  /** The two loops of `pixelColor` (main.ts): the triangle hits, then, with
      "correct spheres" on, the analytic sphere tests. */
  method SelectNearest(s: Settings, env: Env, ray: Ray) returns (top: Option<Top>)
    ensures top == Nearest(s, env, ray)
  {
    ghost var tri := TriangleOffers(s, env.Candidates(ray));
    top := NearestTriangle(s, env.Candidates(ray));
    if s.correctSpheres {
      top := NearestSphere(ray, env.sqrt, env.children, tri, top);
      assert Offers(s, env, ray) == tri + SphereOffers(ray, env.sqrt, env.children);
    } else {
      assert Offers(s, env, ray) == tri by {
        assert tri + [] == tri;
      }
    }
  }

  /** The loop over the raycaster's hits. */
  method NearestTriangle(s: Settings, cands: seq<Candidate>) returns (top: Option<Top>)
    ensures top == Fold(TriangleOffers(s, cands))
  {
    ghost var tri := TriangleOffers(s, cands);
    top := None;
    var i := 0;
    while i < |cands|
      invariant 0 <= i <= |cands|
      invariant top == Fold(tri[..i])
    {
      var c := cands[i];
      ghost var before := top;
      var drawSpheres := !(s.correctSpheres && c.obj.IsSphereMesh());
      if c.obj.MeshObject? && (top.None? || c.distance < top.value.distance) && drawSpheres {
        top := Some(Top(c.obj.mesh, c.distance, c.point, c.normal));
      }
      assert top == Step(before, tri[i]);
      FoldPrefix(tri, i);
      i := i + 1;
    }
    assert tri[..i] == tri;
  }

  /** The loop over the scene's children, continuing from the selection `start`
      that the offers `earlier` led to. */
  method NearestSphere(ray: Ray, sqrt: real -> real, children: seq<SceneObject>,
                       ghost earlier: seq<Option<Top>>, start: Option<Top>) returns (top: Option<Top>)
    requires start == Fold(earlier)
    ensures top == Fold(earlier + SphereOffers(ray, sqrt, children))
  {
    ghost var sph := SphereOffers(ray, sqrt, children);
    top := start;
    var j := 0;
    assert earlier + sph[..j] == earlier;
    while j < |children|
      invariant 0 <= j <= |children|
      invariant top == Fold(earlier + sph[..j])
    {
      var obj := children[j];
      ghost var before := top;
      assert sph[j] == SphereOffer(ray, sqrt, obj);
      if obj.MeshObject? && obj.mesh.IsSphere() {
        var hit := SphereIntersection(ray, obj, sqrt);
        if hit.Hit() {
          var sphereDistance := DistanceTo(ray.origin, obj.mesh.position, sqrt);
          if top.None? || sphereDistance < top.value.distance {
            var point := hit.near;
            top := Some(Top(obj.mesh, sphereDistance, point, Normalize(Sub(point, obj.mesh.position), sqrt)));
          }
        }
      }
      assert top == Step(before, sph[j]);
      FoldAfter(earlier, sph, j);
      j := j + 1;
    }
    assert sph[..j] == sph;
  }
}
