/**
 * Scene objects and their network view (src/objects.rs): the `NetworkObject`
 * wire record, the collision shapes, and the descriptors that
 * `create_collider` and `create_body` hand to the physics engine.
 */
module Objects {
  import opened Wire
  import Utf8

  /** raylib's `Vector3` and `Vector4`, with opaque float components. */
  datatype Vector3 = Vector3(x: F32, y: F32, z: F32)
  datatype Vector4 = Vector4(x: F32, y: F32, z: F32, w: F32)

  /** Fixed-size float arrays `[f32; 3]` and `[f32; 4]`. */
  type F32x3 = s: seq<F32> | |s| == 3 witness [0, 0, 0]
  type F32x4 = s: seq<F32> | |s| == 4 witness [0, 0, 0, 0]

  /** `Vector3::to_array`. */
  function ToArray(v: Vector3): (a: F32x3)
    ensures a[0] == v.x && a[1] == v.y && a[2] == v.z
  {
    [v.x, v.y, v.z]
  }

  const ZERO: Vector3 := Vector3(F32_ZERO, F32_ZERO, F32_ZERO)
  const FORWARD: Vector3 := Vector3(F32_ZERO, F32_ZERO, F32_ONE)
  const RIGHT: Vector3 := Vector3(F32_ONE, F32_ZERO, F32_ZERO)

  // ---------------------------------------------------------------------
  // Shapes

  datatype Cuboid = Cuboid(hx: F32, hy: F32, hz: F32)
  datatype Sphere = Sphere(radius: F32)

  datatype Shape = CUBOID(box: Cuboid) | SPHERE(ball: Sphere) | CONVEX | MULTI | SensorMulti

  /** `Shape::cuboid`: the payload of a CUBOID; any other shape panics (None). */
  function CuboidOf(shape: Shape): (r: Option<Cuboid>)
    ensures r.Some? <==> shape.CUBOID?
    ensures r.Some? ==> shape == CUBOID(r.value)
  {
    match shape
    case CUBOID(c) => Some(c)
    case _ => None
  }

  /** `Shape::sphere`: the payload of a SPHERE; any other shape panics (None). */
  function SphereOf(shape: Shape): (r: Option<Sphere>)
    ensures r.Some? <==> shape.SPHERE?
    ensures r.Some? ==> shape == SPHERE(r.value)
  {
    match shape
    case SPHERE(s) => Some(s)
    case _ => None
  }

  // ---------------------------------------------------------------------
  // Physics-engine descriptors

  /** Opaque arena handles of the physics engine. */
  datatype ColliderHandle = ColliderHandle(index: nat)
  datatype RigidBodyHandle = RigidBodyHandle(index: nat)

  datatype Triangle = Triangle(a: u32, b: u32, c: u32)

  /** Vertex data loaded with a scene object: points and triangle indices. */
  datatype Mesh = Mesh(points: seq<F32x3>, indices: seq<Triangle>)

  datatype Geometry =
    | BoxGeometry(half: Cuboid)
    | BallGeometry(radius: F32)
    | ConvexHull(points: seq<F32x3>)
    | ConvexDecomposition(points: seq<F32x3>, indices: seq<Triangle>)

  /**
   * What a collider builder produces. `restitution` is None when the builder
   * leaves the engine's default; `rotation` (an axis-angle vector) and `parent`
   * are set after building.
   */
  datatype Collider = Collider(
    geometry: Geometry,
    restitution: Option<F32>,
    density: F32,
    sensor: bool,
    rotation: Option<Vector3>,
    parent: Option<RigidBodyHandle>)

  /** The shapes whose colliders are built from vertex data (the others ignore it). */
  predicate NeedsVertices(shape: Shape)
  {
    shape.CONVEX? || shape.MULTI? || shape.SensorMulti?
  }

  /**
   * `create_collider`. The `vertices.unwrap()` of the three mesh shapes is the
   * precondition; only SensorMulti is built as a sensor, and it is also the
   * only one built without a restitution.
   */
  function CreateCollider(shape: Shape, restitution: F32, density: F32, vertices: Option<Mesh>): (c: Collider)
    requires NeedsVertices(shape) ==> vertices.Some?
    ensures c.density == density && c.rotation == None && c.parent == None
    ensures c.sensor <==> shape.SensorMulti?
    ensures c.restitution.None? <==> shape.SensorMulti?
    ensures c.restitution.Some? ==> c.restitution.value == restitution
    ensures shape.CUBOID? ==> c.geometry == BoxGeometry(shape.box)
    ensures shape.SPHERE? ==> c.geometry == BallGeometry(shape.ball.radius)
    ensures NeedsVertices(shape) ==> !c.geometry.BoxGeometry? && !c.geometry.BallGeometry? && c.geometry.points == vertices.value.points
    ensures shape.CONVEX? <==> c.geometry.ConvexHull?
  {
    match shape
    case CUBOID(b) => Collider(BoxGeometry(b), Some(restitution), density, false, None, None)
    case SPHERE(s) => Collider(BallGeometry(s.radius), Some(restitution), density, false, None, None)
    case CONVEX => Collider(ConvexHull(vertices.value.points), Some(restitution), density, false, None, None)
    case MULTI =>
      Collider(ConvexDecomposition(vertices.value.points, vertices.value.indices),
               Some(restitution), density, false, None, None)
    case SensorMulti =>
      Collider(ConvexDecomposition(vertices.value.points, vertices.value.indices),
               None, density, true, None, None)
  }

  /** Shapes that do not need vertex data build the same collider whatever is passed. */
  lemma CreateColliderIgnoresVertices(shape: Shape, restitution: F32, density: F32, v1: Option<Mesh>, v2: Option<Mesh>)
    requires !NeedsVertices(shape)
    ensures CreateCollider(shape, restitution, density, v1) == CreateCollider(shape, restitution, density, v2)
  {
  }

  datatype RigidBodyType = Fixed | Dynamic | KinematicPositionBased | KinematicVelocityBased

  datatype RigidBody = RigidBody(bodyType: RigidBodyType, translation: Vector3, linearDamping: F32, additionalMass: F32)

  /** `create_body`: every body type takes the same translation, damping and mass. */
  function CreateBody(bodyType: RigidBodyType, position: Vector3, linearDamping: F32, additionalMass: F32): (b: RigidBody)
    ensures b.bodyType == bodyType && b.translation == position
    ensures b.linearDamping == linearDamping && b.additionalMass == additionalMass
  {
    RigidBody(bodyType, position, linearDamping, additionalMass)
  }

  /** `Object`: one entry of a loaded scene. */
  datatype SceneObject = SceneObject(
    shape: Shape,
    bodyType: RigidBodyType,
    vertices: seq<F32x3>,
    indices: seq<Triangle>,
    rotation: Vector3,
    position: Vector3,
    radius: F32,
    name: string)

  // ---------------------------------------------------------------------
  // NetworkObject and its wire layout

  /**
   * A client-visible object: position (3 words), rotation (4 words),
   * `id_len` (a usize count) and `id_len` id bytes.
   */
  datatype NetworkObject = NetworkObject(position: F32x3, rotation: F32x4, idLen: nat, id: seq<byte>)

  /** The count field agrees with the id and fits the usize width. */
  predicate ObjectWellFormed(cfg: Config, o: NetworkObject)
  {
    o.idLen == |o.id| && FitsUsize(cfg, o.idLen)
  }

  /** `NetworkObject::new`: the name's UTF-8 bytes, their count, and the rotation as [x, y, z, w]. */
  function NewNetworkObject(name: string, position: Vector3, rotation: Vector4): (o: NetworkObject)
    ensures o.id == Utf8.Encode(name) && Utf8.IsUtf8(o.id)
    ensures o.idLen == |o.id|
    ensures o.position == ToArray(position)
    ensures o.rotation == [rotation.x, rotation.y, rotation.z, rotation.w]
  {
    Utf8.EncodeIsUtf8(name);
    var id := Utf8.Encode(name);
    NetworkObject(ToArray(position), [rotation.x, rotation.y, rotation.z, rotation.w], |id|, id)
  }

  function EncodeObject(cfg: Config, o: NetworkObject): (r: seq<byte>)
    ensures |r| == 28 + cfg.usizeWidth + |o.id|
  {
    WriteWords(o.position, cfg.order) + WriteWords(o.rotation, cfg.order)
      + WriteUInt(o.idLen, cfg.usizeWidth, cfg.order) + o.id
  }

  /** An object's encoding followed by `rest`, split after each field. */
  lemma EncodeObjectParts(cfg: Config, o: NetworkObject, rest: seq<byte>)
    returns (s1: seq<byte>, s2: seq<byte>, s3: seq<byte>)
    ensures s3 == o.id + rest
    ensures s2 == WriteUInt(o.idLen, cfg.usizeWidth, cfg.order) + s3
    ensures s1 == WriteWords(o.rotation, cfg.order) + s2
    ensures EncodeObject(cfg, o) + rest == WriteWords(o.position, cfg.order) + s1
  {
    var a, b := WriteWords(o.position, cfg.order), WriteWords(o.rotation, cfg.order);
    var c := WriteUInt(o.idLen, cfg.usizeWidth, cfg.order);
    s3 := o.id + rest;
    s2 := c + s3;
    s1 := b + s2;
    AppendAssoc(a + b + c, o.id, rest);
    AppendAssoc(a + b, c, s3);
    AppendAssoc(a, b, s2);
  }

  /**
   * Reads position, rotation, the id count and that many id bytes. A
   * successful decode has a consistent count and consumed exactly the
   * object's encoding.
   */
  function DecodeObject(cfg: Config, s: seq<byte>): (r: Option<(NetworkObject, seq<byte>)>)
    ensures r.Some? ==> |r.value.1| < |s|
    ensures r.Some? ==> ObjectWellFormed(cfg, r.value.0) && EncodeObject(cfg, r.value.0) + r.value.1 == s
  {
    match ReadWords(3, s, cfg.order)
    case None => None
    case Some((p, s1)) =>
      match ReadWords(4, s1, cfg.order)
      case None => None
      case Some((q, s2)) =>
        match ReadUInt(s2, cfg.usizeWidth, cfg.order)
        case None => None
        case Some((n, s3)) =>
          match ReadBytes(n, s3)
          case None => None
          case Some((id, s4)) =>
            var o := NetworkObject(p, q, n, id);
            EncodeObjectFromParts(cfg, o, s, s1, s2, s3, s4);
            Some((o, s4))
  }

  lemma EncodeObjectFromParts(cfg: Config, o: NetworkObject, s: seq<byte>, s1: seq<byte>, s2: seq<byte>, s3: seq<byte>, rest: seq<byte>)
    requires s == WriteWords(o.position, cfg.order) + s1
    requires s1 == WriteWords(o.rotation, cfg.order) + s2
    requires s2 == WriteUInt(o.idLen, cfg.usizeWidth, cfg.order) + s3
    requires s3 == o.id + rest
    ensures EncodeObject(cfg, o) + rest == s
  {
    var t1, t2, t3 := EncodeObjectParts(cfg, o, rest);
  }

  /** When every field reads back, the decoder returns the object they make. */
  lemma DecodeObjectSteps(cfg: Config, s: seq<byte>, o: NetworkObject, s1: seq<byte>, s2: seq<byte>, s3: seq<byte>, rest: seq<byte>)
    requires ReadWords(3, s, cfg.order) == Some((o.position, s1))
    requires ReadWords(4, s1, cfg.order) == Some((o.rotation, s2))
    requires ReadUInt(s2, cfg.usizeWidth, cfg.order) == Some((o.idLen, s3))
    requires ReadBytes(o.idLen, s3) == Some((o.id, rest))
    ensures DecodeObject(cfg, s) == Some((o, rest))
  {
  }

  lemma DecodeEncodeObject(cfg: Config, o: NetworkObject, rest: seq<byte>)
    requires ObjectWellFormed(cfg, o)
    ensures DecodeObject(cfg, EncodeObject(cfg, o) + rest) == Some((o, rest))
  {
    var s1, s2, s3 := EncodeObjectParts(cfg, o, rest);
    ReadWriteWords(o.position, cfg.order, s1);
    ReadWriteWords(o.rotation, cfg.order, s2);
    ReadWriteUInt(o.idLen, cfg.usizeWidth, cfg.order, s3);
    ReadBytesPrefix(o.id, rest);
    DecodeObjectSteps(cfg, EncodeObject(cfg, o) + rest, o, s1, s2, s3, rest);
  }

  /** The `objects` list of a response: each object's encoding, in order. */
  function EncodeObjects(cfg: Config, os: seq<NetworkObject>): (r: seq<byte>)
    ensures |r| >= |os| * (28 + cfg.usizeWidth)
  {
    if os == [] then []
    else
      MulStep(|os| - 1, 28 + cfg.usizeWidth);
      EncodeObject(cfg, os[0]) + EncodeObjects(cfg, os[1..])
  }

  /** The objects of a concatenation are written one list after the other. */
  lemma {:induction false} EncodeObjectsAppend(cfg: Config, a: seq<NetworkObject>, b: seq<NetworkObject>)
    ensures EncodeObjects(cfg, a + b) == EncodeObjects(cfg, a) + EncodeObjects(cfg, b)
  {
    if a != [] {
      assert (a + b)[0] == a[0] && (a + b)[1..] == a[1..] + b;
      EncodeObjectsAppend(cfg, a[1..], b);
      AppendAssoc(EncodeObject(cfg, a[0]), EncodeObjects(cfg, a[1..]), EncodeObjects(cfg, b));
    } else {
      assert a + b == b;
    }
  }

  predicate AllObjectsWellFormed(cfg: Config, os: seq<NetworkObject>)
  {
    forall i :: 0 <= i < |os| ==> ObjectWellFormed(cfg, os[i])
  }

  /** Prepending a well-formed object whose encoding precedes the list's. */
  lemma EncodeObjectsCons(cfg: Config, s: seq<byte>, s1: seq<byte>, os: seq<NetworkObject>, rest: seq<byte>)
    requires os != []
    requires ObjectWellFormed(cfg, os[0]) && EncodeObject(cfg, os[0]) + s1 == s
    requires AllObjectsWellFormed(cfg, os[1..]) && EncodeObjects(cfg, os[1..]) + rest == s1
    ensures AllObjectsWellFormed(cfg, os)
    ensures EncodeObjects(cfg, os) + rest == s
  {
    AppendAssoc(EncodeObject(cfg, os[0]), EncodeObjects(cfg, os[1..]), rest);
    assert forall i :: 1 <= i < |os| ==> os[i] == os[1..][i - 1];
  }

  /**
   * Reads exactly `n` objects (`#[deku(count = "object_count")]`). A
   * successful decode is a list of well-formed objects and consumed
   * exactly their encodings.
   */
  function DecodeObjects(cfg: Config, n: nat, s: seq<byte>): (r: Option<(seq<NetworkObject>, seq<byte>)>)
    ensures r.Some? ==> |r.value.0| == n && |r.value.1| <= |s|
    ensures r.Some? ==> AllObjectsWellFormed(cfg, r.value.0) && EncodeObjects(cfg, r.value.0) + r.value.1 == s
  {
    if n == 0 then
      assert EncodeObjects(cfg, []) + s == s;
      Some(([], s))
    else
      match DecodeObject(cfg, s)
      case None => None
      case Some((o, s1)) =>
        match DecodeObjects(cfg, n - 1, s1)
        case None => None
        case Some((os, s2)) =>
          var r := [o] + os;
          assert r[0] == o && r[1..] == os;
          EncodeObjectsCons(cfg, s, s1, r, s2);
          Some((r, s2))
  }

  /** One step of the counted-list decoder. */
  lemma DecodeObjectsCons(cfg: Config, n: nat, s: seq<byte>, o: NetworkObject, s1: seq<byte>,
                          tail: seq<NetworkObject>, os: seq<NetworkObject>, rest: seq<byte>)
    requires n > 0 && os == [o] + tail
    requires DecodeObject(cfg, s) == Some((o, s1))
    requires DecodeObjects(cfg, n - 1, s1) == Some((tail, rest))
    ensures DecodeObjects(cfg, n, s) == Some((os, rest))
  {
  }

  lemma {:induction false} DecodeEncodeObjects(cfg: Config, os: seq<NetworkObject>, rest: seq<byte>)
    requires AllObjectsWellFormed(cfg, os)
    ensures DecodeObjects(cfg, |os|, EncodeObjects(cfg, os) + rest) == Some((os, rest))
  {
    if os != [] {
      var tail := EncodeObjects(cfg, os[1..]) + rest;
      AppendAssoc(EncodeObject(cfg, os[0]), EncodeObjects(cfg, os[1..]), rest);
      DecodeEncodeObject(cfg, os[0], tail);
      DecodeEncodeObjects(cfg, os[1..], rest);
      HeadTail(os);
      DecodeObjectsCons(cfg, |os|, EncodeObjects(cfg, os) + rest, os[0], tail, os[1..], os, rest);
    } else {
      assert EncodeObjects(cfg, os) + rest == rest;
    }
  }

  /** Objects made by `NetworkObject::new` round-trip whenever the id length fits the usize width. */
  lemma NewNetworkObjectRoundTrips(cfg: Config, name: string, position: Vector3, rotation: Vector4, rest: seq<byte>)
    requires FitsUsize(cfg, |Utf8.Encode(name)|)
    ensures var o := NewNetworkObject(name, position, rotation);
      DecodeObject(cfg, EncodeObject(cfg, o) + rest) == Some((o, rest))
  {
    DecodeEncodeObject(cfg, NewNetworkObject(name, position, rotation), rest);
  }
}
