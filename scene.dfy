// The scene as the engine sees it while rendering one frame: the top-level
// children of the scene graph (meshes and the point lights), the three lights,
// the camera position, and the three.js services the engine calls but whose
// code is not part of this model (ray construction from the camera, the
// triangle raycaster, square root and power), all passed in as values.
module Scene {
  import opened Vectors

  datatype Ray = Ray(origin: Vec3, direction: Vec3)

  /** The fields of a Phong material the engine reads, plus the added `mirror` flag. */
  datatype Material = Material(
    color: Color,        // diffuse colour
    specular: Color,
    shininess: real,
    mirror: bool,
    reflectivity: real)

  datatype Geometry = SphereGeometry(radius: real) | OtherGeometry

  datatype Mesh = Mesh(id: nat, geometry: Geometry, position: Vec3, material: Material) {
    predicate IsSphere() {
      geometry.SphereGeometry?
    }
  }

  /** A child of the scene graph: a mesh, or something else (the point lights). */
  datatype SceneObject = MeshObject(mesh: Mesh) | NonMesh(id: nat) {
    function Id(): nat {
      match this
      case MeshObject(m) => m.id
      case NonMesh(i) => i
    }

    predicate IsSphereMesh() {
      MeshObject? && mesh.IsSphere()
    }
  }

  datatype Light = Light(position: Vec3, color: Color, intensity: real)

  /** The three point lights the scene is built with, in the order of the `lights` array. */
  datatype Lights = Lights(first: Light, second: Light, third: Light)

  /** One entry of a raycaster result: distance along the ray, world-space hit
      point, world-space face normal, and the object that was struck. */
  datatype Candidate = Candidate(distance: real, point: Vec3, normal: Vec3, obj: SceneObject)

  datatype Env = Env(
    children: seq<SceneObject>,                             // scene.children
    lights: Lights,
    camera: Vec3,                                           // camera.position
    primaryRay: (real, real) -> Ray,                        // Raycaster.setFromCamera
    intersectObjects: Ray -> seq<Candidate>,                // recursive test against scene.children
    intersectObject: (Ray, SceneObject) -> seq<Candidate>,  // test against one object
    sqrt: real -> real,                                     // Math.sqrt
    pow: (real, real) -> real)                              // Math.pow
  {
    // Every use of a service goes through one of these, so that all
    // applications of it are the same term.

    /** `raycaster.intersectObjects(scene.children, true)`, sorted by distance. */
    function Candidates(ray: Ray): seq<Candidate> {
      intersectObjects(ray)
    }

    /** `raycaster.intersectObject(obj)`. */
    function HitsOn(ray: Ray, obj: SceneObject): seq<Candidate> {
      intersectObject(ray, obj)
    }

    /** `raycaster.setFromCamera(canvCords, camera)`. */
    function CameraRay(ndcX: real, ndcY: real): Ray {
      primaryRay(ndcX, ndcY)
    }

    function Power(base: real, exponent: real): real {
      pow(base, exponent)
    }
  }
}
