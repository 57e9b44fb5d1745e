/**
 * The world of one session (src/game.rs): the physics objects and their
 * network view, the player roster, the template new players are cloned
 * from, and the two channels between the world and the player tasks.
 *
 * The physics engine is not modelled. Its arenas are maps from handles to
 * the descriptors of src/objects.rs, handles are drawn from counters that
 * never reuse a value (a removed handle stays stale), and what a step of
 * the engine computes (collider poses, the character controller's move) is
 * a `Physics` value passed in by the caller.
 */
module Game {
  import opened Wire
  import opened Objects
  import opened Players
  import Utf8

  /** An entry of `objects`: the object as added, its collider and its body. */
  datatype PhysicsObject = PhysicsObject(net: NetworkObject, collider: ColliderHandle, body: RigidBodyHandle)

  /**
   * What the engine reports for one tick: each collider's translation and
   * rotation quaternion (x, y, z, w) after the step, and where the character
   * controller puts a player (the submitted player and the roster's copy).
   */
  datatype Physics = Physics(
    translation: ColliderHandle -> Vector3,
    rotation: ColliderHandle -> Vector4,
    moveTo: (Player, Player) -> Vector3)

  // ---------------------------------------------------------------------
  // Refreshing the network view from the engine

  /** The rotation as the clients read it: [z, y, x, -w] of the engine's quaternion. */
  function WireRotation(q: Vector4): (r: F32x4)
    ensures r[0] == q.z && r[1] == q.y && r[2] == q.x
    ensures Neg(r[3]) == q.w
  {
    NegNeg(q.w);
    [q.z, q.y, q.x, Neg(q.w)]
  }

  /** The last index of `objs` whose object has the id `id`. */
  function LastMatch(id: seq<byte>, objs: seq<PhysicsObject>): (r: Option<nat>)
    ensures r.Some? ==> r.value < |objs| && objs[r.value].net.id == id
    ensures r.Some? ==> forall j :: r.value < j < |objs| ==> objs[j].net.id != id
    ensures r.None? ==> forall j :: 0 <= j < |objs| ==> objs[j].net.id != id
  {
    if objs == [] then None
    else if objs[|objs| - 1].net.id == id then Some(|objs| - 1)
    else LastMatch(id, objs[..|objs| - 1])
  }

  /**
   * A network object after the refresh sweep: the pose of the collider of
   * the last physics entry with the same id; untouched when none has it.
   */
  function Refreshed(phys: Physics, o: NetworkObject, objs: seq<PhysicsObject>): (r: NetworkObject)
    ensures r.id == o.id && r.idLen == o.idLen
  {
    match LastMatch(o.id, objs)
    case None => o
    case Some(j) =>
      o.(position := ToArray(phys.translation(objs[j].collider)),
         rotation := WireRotation(phys.rotation(objs[j].collider)))
  }

  /** An object that has an entry of its own is always moved to the pose of its last namesake. */
  lemma RefreshedMatches(phys: Physics, o: NetworkObject, objs: seq<PhysicsObject>, i: nat)
    requires i < |objs| && objs[i].net.id == o.id
    ensures LastMatch(o.id, objs).Some? && LastMatch(o.id, objs).value >= i
    ensures var h := objs[LastMatch(o.id, objs).value].collider;
      Refreshed(phys, o, objs).position == ToArray(phys.translation(h))
      && Refreshed(phys, o, objs).rotation == WireRotation(phys.rotation(h))
  {
  }

  /** An object that no entry names is left exactly as it was. */
  lemma RefreshedUnmatched(phys: Physics, o: NetworkObject, objs: seq<PhysicsObject>)
    requires forall j :: 0 <= j < |objs| ==> objs[j].net.id != o.id
    ensures Refreshed(phys, o, objs) == o
  {
  }

  /** Sweeping twice against the same poses gives what one sweep gives. */
  lemma RefreshedIdempotent(phys: Physics, o: NetworkObject, objs: seq<PhysicsObject>)
    ensures Refreshed(phys, Refreshed(phys, o, objs), objs) == Refreshed(phys, o, objs)
  {
  }

  /** Extending the swept prefix by one entry: a namesake overrides, any other entry changes nothing. */
  lemma RefreshedStep(phys: Physics, o: NetworkObject, objs: seq<PhysicsObject>, j: nat)
    requires j < |objs|
    ensures objs[j].net.id == o.id ==>
      Refreshed(phys, o, objs[..j + 1])
        == o.(position := ToArray(phys.translation(objs[j].collider)),
              rotation := WireRotation(phys.rotation(objs[j].collider)))
    ensures objs[j].net.id != o.id ==> Refreshed(phys, o, objs[..j + 1]) == Refreshed(phys, o, objs[..j])
  {
    assert objs[..j + 1][..j] == objs[..j];
  }

  /**
   * The nested loop of the sweep: for each network object, every entry of
   * `objs` in turn, overwriting the pose whenever the ids agree. The
   * collider of a matching entry must be in the arena (it is unwrapped).
   */
  method Sweep(phys: Physics, nos: seq<NetworkObject>, objs: seq<PhysicsObject>,
               colliders: map<ColliderHandle, Collider>) returns (views: seq<NetworkObject>)
    requires forall j :: 0 <= j < |objs| ==> objs[j].collider in colliders
    ensures |views| == |nos|
    ensures forall i :: 0 <= i < |nos| ==> views[i] == Refreshed(phys, nos[i], objs)
  {
    views := nos;
    var i := 0;
    while i < |views|
      invariant 0 <= i <= |views| == |nos|
      invariant forall k :: 0 <= k < i ==> views[k] == Refreshed(phys, nos[k], objs)
      invariant forall k :: i <= k < |views| ==> views[k] == nos[k]
    {
      var current := views[i];
      var j := 0;
      while j < |objs|
        invariant 0 <= j <= |objs|
        invariant current == Refreshed(phys, nos[i], objs[..j])
      {
        RefreshedStep(phys, nos[i], objs, j);
        if current.id == objs[j].net.id {
          var handle := objs[j].collider;
          assert handle in colliders;
          current := current.(position := ToArray(phys.translation(handle)),
                              rotation := WireRotation(phys.rotation(handle)));
        }
        j := j + 1;
      }
      assert objs[..|objs|] == objs;
      views := views[i := current];
      i := i + 1;
    }
  }

  // ---------------------------------------------------------------------
  // Moving players and building their signals

  /**
   * `move_player`: a player the roster knows moves to where the controller
   * puts it; a player the roster does not know is left as it is. Nothing but
   * the position changes.
   */
  function MovePlayer(phys: Physics, roster: map<u64, Player>, p: Player): (moved: Player)
    ensures moved.(position := p.position) == p
    ensures moved.id == p.id
    ensures p.id !in roster ==> moved == p
  {
    if p.id in roster then p.(position := phys.moveTo(p, roster[p.id])) else p
  }

  /** The roster after `update_player` has handled the first `n` queued players in turn, oldest first. */
  function RosterAfter(phys: Physics, roster: map<u64, Player>, queue: seq<Player>, n: nat): (r: map<u64, Player>)
    requires n <= |queue|
  {
    if n == 0 then roster
    else
      var before := RosterAfter(phys, roster, queue, n - 1);
      var p := queue[n - 1];
      before[p.id := MovePlayer(phys, before, p)]
  }

  /** The ids of the first `n` players of a queue. */
  function Ids(queue: seq<Player>, n: nat): (ids: set<u64>)
    requires n <= |queue|
    ensures forall i :: 0 <= i < n ==> queue[i].id in ids
    ensures forall k :: k in ids ==> exists i :: 0 <= i < n && queue[i].id == k
  {
    set i | 0 <= i < n :: queue[i].id
  }

  /** Handling a queue adds exactly the queued ids to the roster. */
  lemma {:induction false} RosterAfterKeys(phys: Physics, roster: map<u64, Player>, queue: seq<Player>, n: nat)
    requires n <= |queue|
    ensures RosterAfter(phys, roster, queue, n).Keys == roster.Keys + Ids(queue, n)
  {
    if n > 0 {
      RosterAfterKeys(phys, roster, queue, n - 1);
      assert Ids(queue, n) == Ids(queue, n - 1) + {queue[n - 1].id};
    }
  }

  /** Handling a queue keeps every roster entry stored under its player's id. */
  lemma {:induction false} RosterAfterKeyed(phys: Physics, roster: map<u64, Player>, queue: seq<Player>, n: nat)
    requires n <= |queue| && KeyedById(roster)
    ensures KeyedById(RosterAfter(phys, roster, queue, n))
  {
    if n > 0 {
      RosterAfterKeyed(phys, roster, queue, n - 1);
      var before := RosterAfter(phys, roster, queue, n - 1);
      KeyedByIdInsert(before, MovePlayer(phys, before, queue[n - 1]));
    }
  }

  /** A player whose id nobody queued is left untouched. */
  lemma {:induction false} RosterAfterUntouched(phys: Physics, roster: map<u64, Player>, queue: seq<Player>,
                                                n: nat, k: u64)
    requires n <= |queue| && k in roster && forall i :: 0 <= i < n ==> queue[i].id != k
    ensures k in RosterAfter(phys, roster, queue, n) && RosterAfter(phys, roster, queue, n)[k] == roster[k]
  {
    if n > 0 {
      RosterAfterUntouched(phys, roster, queue, n - 1, k);
    }
  }

  /** `order` lists every key of `keys` exactly once: one possible iteration order of a HashMap. */
  predicate Enumerates(order: seq<u64>, keys: set<u64>)
    decreases |order|
  {
    if order == [] then keys == {}
    else order[0] in keys && Enumerates(order[1..], keys - {order[0]})
  }

  /** Every finite key set has an iteration order. */
  lemma {:induction false} EnumerationExists(keys: set<u64>) returns (order: seq<u64>)
    ensures Enumerates(order, keys)
    decreases |keys|
  {
    if keys == {} {
      order := [];
    } else {
      var k :| k in keys;
      var tail := EnumerationExists(keys - {k});
      order := [k] + tail;
      assert order[0] == k && order[1..] == tail;
    }
  }

  /** An iteration order holds keys only, every key, each once, so it is as long as the set is large. */
  lemma {:induction false} EnumerationFacts(order: seq<u64>, keys: set<u64>)
    requires Enumerates(order, keys)
    ensures |order| == |keys|
    ensures forall i :: 0 <= i < |order| ==> order[i] in keys
    ensures forall k :: k in keys ==> k in order
    ensures forall i, j :: 0 <= i < j < |order| ==> order[i] != order[j]
    decreases |order|
  {
    if order != [] {
      var tail := order[1..];
      EnumerationFacts(tail, keys - {order[0]});
      assert forall i :: 1 <= i < |order| ==> order[i] == tail[i - 1];
      forall k | k in keys
        ensures k in order
      {
        if k != order[0] {
          assert k in tail;
        }
      }
    }
  }

  /** The views of the roster's players, in the iteration order. */
  function Views(roster: map<u64, Player>, order: seq<u64>): (vs: seq<ResponseSignal>)
    requires forall i :: 0 <= i < |order| ==> order[i] in roster
    ensures |vs| == |order|
    ensures forall i :: 0 <= i < |order| ==> vs[i] == PlayerView(roster[order[i]])
  {
    seq(|order|, i requires 0 <= i < |order| => PlayerView(roster[order[i]]))
  }

  /**
   * `build_signal` with the roster iterated in `order`: the player's own
   * transform and camera, every network object, a view of every roster
   * player (each once), and both counts set to the lists' lengths.
   */
  function SignalFor(p: Player, objects: seq<NetworkObject>, roster: map<u64, Player>, order: seq<u64>): (r: ResponseSignal)
    requires Enumerates(order, roster.Keys)
    ensures Vectors(r) == Vectors(PlayerView(p))
    ensures r.objects == objects && r.objectCount == |objects|
    ensures |r.players| == |roster| && r.playerCount == |roster|
  {
    EnumerationFacts(order, roster.Keys);
    UpdateCounts(PlayerView(p).(players := Views(roster, order), objects := objects))
  }

  /** The signal lists every roster player's view, and nothing else. */
  lemma SignalForRoster(p: Player, objects: seq<NetworkObject>, roster: map<u64, Player>, order: seq<u64>)
    requires Enumerates(order, roster.Keys)
    ensures var r := SignalFor(p, objects, roster, order);
      && (forall k :: k in roster ==> PlayerView(roster[k]) in r.players)
      && (forall i :: 0 <= i < |r.players| ==> exists k :: k in roster && r.players[i] == PlayerView(roster[k]))
  {
    var r := SignalFor(p, objects, roster, order);
    EnumerationFacts(order, roster.Keys);
    forall k | k in roster
      ensures PlayerView(roster[k]) in r.players
    {
      var i :| 0 <= i < |order| && order[i] == k;
      assert r.players[i] == PlayerView(roster[k]);
    }
    forall i | 0 <= i < |r.players|
      ensures exists k :: k in roster && r.players[i] == PlayerView(roster[k])
    {
      assert r.players[i] == PlayerView(roster[order[i]]);
    }
  }

  /** A list of views alone is well formed at every width. */
  lemma {:induction false} ViewsWellFormed(cfg: Config, vs: seq<ResponseSignal>)
    requires forall i :: 0 <= i < |vs| ==> vs[i].players == [] && vs[i].objects == []
    requires forall i :: 0 <= i < |vs| ==> vs[i].playerCount == 0 && vs[i].objectCount == 0
    ensures AllWellFormed(cfg, vs)
    decreases |vs|
  {
    if vs != [] {
      assert Pow256(cfg.usizeWidth) >= 1;
      ViewsWellFormed(cfg, vs[1..]);
    }
  }

  /**
   * A signal for the player round-trips through the wire codec exactly
   * when its objects are well formed and both list lengths fit the usize width.
   */
  lemma SignalForWellFormed(cfg: Config, p: Player, objects: seq<NetworkObject>, roster: map<u64, Player>, order: seq<u64>)
    requires Enumerates(order, roster.Keys)
    ensures WellFormed(cfg, SignalFor(p, objects, roster, order))
      <==> AllObjectsWellFormed(cfg, objects) && FitsUsize(cfg, |roster|) && FitsUsize(cfg, |objects|)
  {
    var r := SignalFor(p, objects, roster, order);
    ViewsWellFormed(cfg, r.players);
  }

  /** `sig` is what `build_signal` yields for `p` under some iteration order of the roster. */
  ghost predicate IsSignalFor(sig: ResponseSignal, p: Player, objects: seq<NetworkObject>, roster: map<u64, Player>)
  {
    exists order :: Enumerates(order, roster.Keys) && sig == SignalFor(p, objects, roster, order)
  }

  /**
   * The `k`-th message the drain sends for `queue`: the `k`-th queued player
   * moved against the roster as it stood, and a signal built from the
   * roster that already holds that moved player.
   */
  ghost predicate Delivered(phys: Physics, objects: seq<NetworkObject>, roster: map<u64, Player>,
                            queue: seq<Player>, k: nat, msg: (Player, ResponseSignal))
    requires k < |queue|
  {
    && msg.0 == MovePlayer(phys, RosterAfter(phys, roster, queue, k), queue[k])
    && IsSignalFor(msg.1, msg.0, objects, RosterAfter(phys, roster, queue, k + 1))
  }

  /**
   * After the drain has handled the first `|msgs|` players of `queue`: the
   * roster is as `update_player` left it, and `msgs` are exactly the
   * messages the drain has sent so far.
   */
  ghost predicate Drained(phys: Physics, objects: seq<NetworkObject>, roster: map<u64, Player>, queue: seq<Player>,
                          players: map<u64, Player>, msgs: seq<(Player, ResponseSignal)>)
  {
    && |msgs| <= |queue|
    && players == RosterAfter(phys, roster, queue, |msgs|)
    && forall k :: 0 <= k < |msgs| ==> Delivered(phys, objects, roster, queue, k, msgs[k])
  }

  lemma DrainedEmpty(phys: Physics, objects: seq<NetworkObject>, roster: map<u64, Player>, queue: seq<Player>)
    ensures Drained(phys, objects, roster, queue, roster, [])
  {
  }

  /** Handling the next queued player as `update_player` does extends the drain by one message. */
  lemma DrainedSnoc(phys: Physics, objects: seq<NetworkObject>, roster: map<u64, Player>, queue: seq<Player>,
                    players: map<u64, Player>, msgs: seq<(Player, ResponseSignal)>,
                    moved: Player, sig: ResponseSignal)
    requires |msgs| < |queue| && Drained(phys, objects, roster, queue, players, msgs)
    requires moved == MovePlayer(phys, players, queue[|msgs|])
    requires IsSignalFor(sig, moved, objects, players[queue[|msgs|].id := moved])
    ensures Drained(phys, objects, roster, queue, players[queue[|msgs|].id := moved], msgs + [(moved, sig)])
  {
    var n := |msgs|;
    var msgs' := msgs + [(moved, sig)];
    assert RosterAfter(phys, roster, queue, n + 1) == players[queue[n].id := moved];
    forall k | 0 <= k < n + 1
      ensures Delivered(phys, objects, roster, queue, k, msgs'[k])
    {
      if k < n {
        assert msgs'[k] == msgs[k];
      }
    }
  }

  // ---------------------------------------------------------------------
  // Scene loading

  /** The UTF-8 bytes of "Player" and "Ball". */
  const PLAYER_TAG: seq<byte> := [0x50, 0x6C, 0x61, 0x79, 0x65, 0x72]
  const BALL_TAG: seq<byte> := [0x42, 0x61, 0x6C, 0x6C]

  /** `&name[2..]` does not panic: the name has two bytes and byte 2 starts a character. */
  predicate Sliceable(o: SceneObject)
  {
    var b := Utf8.Encode(o.name);
    |b| >= 2 && Utf8.IsCharBoundary(b, 2)
  }

  /** What `init_scene` matches on: the name without its first two bytes. */
  function Tag(o: SceneObject): (t: seq<byte>)
    requires Sliceable(o)
    ensures Utf8.Encode(o.name) == Utf8.Encode(o.name)[..2] + t
  {
    Utf8.Encode(o.name)[2..]
  }

  /** The shape a scene entry is added with: a ball becomes a sphere of its radius. */
  function SceneShape(o: SceneObject): (s: Shape)
    requires Sliceable(o)
    ensures Tag(o) == BALL_TAG ==> s == SPHERE(Sphere(o.radius))
    ensures Tag(o) != BALL_TAG ==> s == o.shape
  {
    if Tag(o) == BALL_TAG then SPHERE(Sphere(o.radius)) else o.shape
  }

  /** The network view of a non-player scene entry: rotation (x, y, z, 1). */
  function SceneNetworkObject(o: SceneObject): (n: NetworkObject)
  {
    NewNetworkObject(o.name, o.position, Vector4(o.rotation.x, o.rotation.y, o.rotation.z, F32_ONE))
  }

  /** Bytes equal to a text's character codes match a tag exactly when the text matches the tag's text. */
  lemma CodesMatch(t: seq<byte>, rest: string, tag: seq<byte>, text: string)
    requires |t| == |rest| && forall i :: 0 <= i < |t| ==> t[i] as int == rest[i] as int
    requires |tag| == |text| && forall i :: 0 <= i < |tag| ==> tag[i] as int == text[i] as int
    ensures t == tag <==> rest == text
  {
    if t == tag {
      assert forall i :: 0 <= i < |rest| ==> rest[i] as int == text[i] as int;
      assert rest == text;
    }
    if rest == text {
      assert forall i :: 0 <= i < |t| ==> t[i] as int == tag[i] as int;
      assert t == tag;
    }
  }

  /**
   * For a name written in ASCII with at least two characters, `&name[2..]`
   * does not panic and the tags compare as text: the entry is the player or
   * a ball exactly when the name reads "..Player" or "..Ball".
   */
  lemma AsciiTag(o: SceneObject)
    requires |o.name| >= 2 && forall i :: 0 <= i < |o.name| ==> o.name[i] as int < 0x80
    ensures Sliceable(o)
    ensures Tag(o) == PLAYER_TAG <==> o.name[2..] == "Player"
    ensures Tag(o) == BALL_TAG <==> o.name[2..] == "Ball"
  {
    Utf8.AsciiPrefixBoundary(o.name);
    Utf8.EncodeAscii(o.name);
    var t, rest := Tag(o), o.name[2..];
    forall i | 0 <= i < |t| ensures t[i] as int == rest[i] as int {
      assert t[i] == Utf8.Encode(o.name)[i + 2];
    }
    CodesMatch(t, rest, PLAYER_TAG, "Player");
    CodesMatch(t, rest, BALL_TAG, "Ball");
  }

  /** The entries among the first `n` of a scene that become world objects, in scene order. */
  function SceneEntries(scene: seq<SceneObject>, n: nat): (es: seq<SceneObject>)
    requires n <= |scene| && forall i :: 0 <= i < |scene| ==> Sliceable(scene[i])
    ensures |es| <= n
    ensures forall i :: 0 <= i < |es| ==> Sliceable(es[i]) && Tag(es[i]) != PLAYER_TAG
  {
    if n == 0 then []
    else
      var init := SceneEntries(scene, n - 1);
      if Tag(scene[n - 1]) == PLAYER_TAG then init else init + [scene[n - 1]]
  }

  /** Among the first `n` entries, the index of the last one tagged as the player, if any. */
  function LastPlayerIndex(scene: seq<SceneObject>, n: nat): (r: Option<nat>)
    requires n <= |scene| && forall i :: 0 <= i < |scene| ==> Sliceable(scene[i])
    ensures r.Some? ==> r.value < n && Tag(scene[r.value]) == PLAYER_TAG
    ensures r.Some? ==> forall j :: r.value < j < n ==> Tag(scene[j]) != PLAYER_TAG
    ensures r.None? ==> forall j :: 0 <= j < n ==> Tag(scene[j]) != PLAYER_TAG
  {
    if n == 0 then None
    else if Tag(scene[n - 1]) == PLAYER_TAG then Some(n - 1)
    else LastPlayerIndex(scene, n - 1)
  }

  /** A scene with no player entry turns every entry into an object, in order. */
  lemma {:induction false} SceneEntriesWithoutPlayer(scene: seq<SceneObject>, n: nat)
    requires n <= |scene| && forall i :: 0 <= i < |scene| ==> Sliceable(scene[i])
    requires forall j :: 0 <= j < n ==> Tag(scene[j]) != PLAYER_TAG
    ensures SceneEntries(scene, n) == scene[..n]
  {
    if n > 0 {
      SceneEntriesWithoutPlayer(scene, n - 1);
      assert scene[..n] == scene[..n - 1] + [scene[n - 1]];
    }
  }

  /** The network views of scene entries, in order. */
  function SceneView(es: seq<SceneObject>): (nos: seq<NetworkObject>)
    ensures |nos| == |es|
    ensures forall i :: 0 <= i < |es| ==> nos[i] == SceneNetworkObject(es[i])
  {
    seq(|es|, i requires 0 <= i < |es| => SceneNetworkObject(es[i]))
  }

  lemma SceneViewSnoc(es: seq<SceneObject>, o: SceneObject)
    ensures SceneView(es + [o]) == SceneView(es) + [SceneNetworkObject(o)]
  {
  }

  /**
   * `create_player` as `init_scene` calls it for the entry `o`: speed 1,
   * mass 100, default controllers, fresh camera, and the entry's mesh.
   * Only the id and collider handle are chosen by the world.
   */
  ghost predicate IsTemplateFor(p: Player, o: SceneObject)
  {
    p == NewPlayer(p.id, F32_ONE, DEFAULT_CONTROLLER, p.collider, o.position, F32_HUNDRED, DEFAULT_CONTROLLER)
           .(vertices := Some(Mesh(o.vertices, o.indices)))
  }

  /** The collider `add_object` attaches to `body`, rotated by the axis-angle vector `rotation`. */
  function ObjectCollider(shape: Shape, rotation: Vector3, restitution: F32, density: F32,
                          vertices: Mesh, body: RigidBodyHandle): (c: Collider)
    ensures c.rotation == Some(rotation) && c.parent == Some(body) && c.density == density
    ensures c.geometry == CreateCollider(shape, restitution, density, Some(vertices)).geometry
  {
    CreateCollider(shape, restitution, density, Some(vertices)).(rotation := Some(rotation), parent := Some(body))
  }

  /** The collider `init_scene` builds for a scene entry: restitution and density 1. */
  function SceneCollider(o: SceneObject, body: RigidBodyHandle): (c: Collider)
    requires Sliceable(o)
  {
    ObjectCollider(SceneShape(o), o.rotation, F32_ONE, F32_ONE, Mesh(o.vertices, o.indices), body)
  }

  function SceneBody(o: SceneObject): (b: RigidBody)
  {
    CreateBody(o.bodyType, o.position, F32_ONE, F32_ONE)
  }

  /** The parts of the world that loading a scene changes. */
  datatype Stage = Stage(objects: seq<PhysicsObject>, networkObjects: seq<NetworkObject>,
                         colliders: map<ColliderHandle, Collider>, bodies: map<RigidBodyHandle, RigidBody>,
                         defaultPlayer: Option<Player>)

  /**
   * What one arm of the `init_scene` match does to the world: an entry
   * tagged as the player replaces the template and nothing else; any other
   * entry appends its network view to both lists, with a fresh collider and
   * body built for it.
   */
  ghost predicate EntryLoaded(o: SceneObject, before: Stage, after: Stage)
    requires Sliceable(o)
  {
    if Tag(o) == PLAYER_TAG then
      && after.defaultPlayer.Some? && after.defaultPlayer.value.id < U64_MAX
      && IsTemplateFor(after.defaultPlayer.value, o)
      && after == before.(defaultPlayer := after.defaultPlayer)
    else
      && after.defaultPlayer == before.defaultPlayer
      && after.networkObjects == before.networkObjects + [SceneNetworkObject(o)]
      && |after.objects| == |before.objects| + 1
      && var e := after.objects[|before.objects|];
         && after.objects == before.objects + [e]
         && e.net == SceneNetworkObject(o)
         && e.collider !in before.colliders && e.body !in before.bodies
         && after.colliders == before.colliders[e.collider := SceneCollider(o, e.body)]
         && after.bodies == before.bodies[e.body := SceneBody(o)]
  }

  /**
   * `m` with each of the first `n` keys of `ks` bound, in order, to the
   * matching value of `vs`, as an arena issuing handles does; None if a key
   * is already bound when its turn comes.
   */
  ghost function InsertFresh<K, V>(m: map<K, V>, ks: seq<K>, vs: seq<V>, n: nat): Option<map<K, V>>
    requires n <= |ks| && n <= |vs|
  {
    if n == 0 then Some(m)
    else match InsertFresh(m, ks, vs, n - 1)
      case None => None
      case Some(r) => if ks[n - 1] in r then None else Some(r[ks[n - 1] := vs[n - 1]])
  }

  /** Inserting reads only the first `n` keys and values. */
  lemma {:induction false} InsertFreshPrefix<K, V>(m: map<K, V>, ks: seq<K>, vs: seq<V>, n: nat, k: K, v: V)
    requires n <= |ks| && n <= |vs|
    ensures InsertFresh(m, ks + [k], vs + [v], n) == InsertFresh(m, ks, vs, n)
  {
    if n > 0 {
      InsertFreshPrefix(m, ks, vs, n - 1, k, v);
      assert (ks + [k])[n - 1] == ks[n - 1] && (vs + [v])[n - 1] == vs[n - 1];
    }
  }

  /** One more key that is not bound yet extends a successful insertion. */
  lemma InsertFreshSnoc<K, V>(m: map<K, V>, ks: seq<K>, vs: seq<V>, r: map<K, V>, k: K, v: V)
    requires |ks| == |vs| && InsertFresh(m, ks, vs, |ks|) == Some(r) && k !in r
    ensures InsertFresh(m, ks + [k], vs + [v], |ks| + 1) == Some(r[k := v])
  {
    InsertFreshPrefix(m, ks, vs, |ks|, k, v);
    assert (ks + [k])[|ks|] == k && (vs + [v])[|ks|] == v;
  }

  /**
   * What a successful insertion means: every binding of `m` is kept, the
   * keys are exactly those of `m` and the new ones, each new key was
   * unbound in `m`, no two new keys are equal, and each is bound to its
   * own value.
   */
  lemma {:induction false} InsertFreshMeaning<K, V>(m: map<K, V>, ks: seq<K>, vs: seq<V>, n: nat, r: map<K, V>)
    requires n <= |ks| && n <= |vs| && InsertFresh(m, ks, vs, n) == Some(r)
    ensures r.Keys == m.Keys + (set i | 0 <= i < n :: ks[i])
    ensures forall k :: k in m ==> r[k] == m[k]
    ensures forall i :: 0 <= i < n ==> ks[i] !in m && ks[i] in r && r[ks[i]] == vs[i]
    ensures forall i, j :: 0 <= i < j < n ==> ks[i] != ks[j]
  {
    if n > 0 {
      var c := InsertFresh(m, ks, vs, n - 1).value;
      InsertFreshMeaning(m, ks, vs, n - 1, c);
      assert ks[n - 1] !in c && r == c[ks[n - 1] := vs[n - 1]];
      assert (set i | 0 <= i < n :: ks[i]) == (set i | 0 <= i < n - 1 :: ks[i]) + {ks[n - 1]};
      forall i | 0 <= i < n - 1 ensures ks[i] != ks[n - 1] {
        assert ks[i] in c;
      }
    }
  }

  /** The collider handles of the objects from index `n0` on. */
  ghost function ColliderHandles(objs: seq<PhysicsObject>, n0: nat): (hs: seq<ColliderHandle>)
    requires n0 <= |objs|
    ensures |hs| == |objs| - n0
  {
    seq(|objs| - n0, i requires 0 <= i < |objs| - n0 => objs[n0 + i].collider)
  }

  /** The network objects of the objects from index `n0` on. */
  ghost function ObjectNets(objs: seq<PhysicsObject>, n0: nat): (nos: seq<NetworkObject>)
    requires n0 <= |objs|
    ensures |nos| == |objs| - n0
  {
    seq(|objs| - n0, i requires 0 <= i < |objs| - n0 => objs[n0 + i].net)
  }

  /** The body handles of the objects from index `n0` on. */
  ghost function BodyHandles(objs: seq<PhysicsObject>, n0: nat): (hs: seq<RigidBodyHandle>)
    requires n0 <= |objs|
    ensures |hs| == |objs| - n0
  {
    seq(|objs| - n0, i requires 0 <= i < |objs| - n0 => objs[n0 + i].body)
  }

  /** The colliders built for the entries `es`, each attached to the body of its object in objs[n0..]. */
  ghost function SceneColliders(es: seq<SceneObject>, objs: seq<PhysicsObject>, n0: nat): (cs: seq<Collider>)
    requires n0 + |es| <= |objs| && forall j :: 0 <= j < |es| ==> Sliceable(es[j])
    ensures |cs| == |es|
  {
    seq(|es|, j requires 0 <= j < |es| => SceneCollider(es[j], objs[n0 + j].body))
  }

  /** The bodies built for the entries `es`. */
  ghost function SceneBodies(es: seq<SceneObject>): (bs: seq<RigidBody>)
    ensures |bs| == |es|
  {
    seq(|es|, j requires 0 <= j < |es| => SceneBody(es[j]))
  }

  lemma HandlesSnoc(objs: seq<PhysicsObject>, n0: nat, e: PhysicsObject)
    requires n0 <= |objs|
    ensures ColliderHandles(objs + [e], n0) == ColliderHandles(objs, n0) + [e.collider]
    ensures BodyHandles(objs + [e], n0) == BodyHandles(objs, n0) + [e.body]
    ensures ObjectNets(objs + [e], n0) == ObjectNets(objs, n0) + [e.net]
  {
  }

  lemma BuiltSnoc(es: seq<SceneObject>, objs: seq<PhysicsObject>, n0: nat, e: PhysicsObject, o: SceneObject)
    requires n0 + |es| == |objs| && Sliceable(o) && forall j :: 0 <= j < |es| ==> Sliceable(es[j])
    ensures SceneColliders(es + [o], objs + [e], n0) == SceneColliders(es, objs, n0) + [SceneCollider(o, e.body)]
    ensures SceneBodies(es + [o]) == SceneBodies(es) + [SceneBody(o)]
  {
    var l := SceneColliders(es + [o], objs + [e], n0);
    var r := SceneColliders(es, objs, n0) + [SceneCollider(o, e.body)];
    forall j | 0 <= j < |l| ensures l[j] == r[j] {
      if j < |es| {
        assert (objs + [e])[n0 + j] == objs[n0 + j] && (es + [o])[j] == es[j];
      }
    }
  }

  /**
   * The arena after loading: `before`'s colliders and bodies with the new
   * objects' handles bound, in order, to what was built for their entries,
   * every one of them fresh.
   */
  ghost predicate Registered(before: Stage, after: Stage, es: seq<SceneObject>)
    requires forall j :: 0 <= j < |es| ==> Sliceable(es[j])
  {
    var n0 := |before.objects|;
    && n0 + |es| == |after.objects|
    && InsertFresh(before.colliders, ColliderHandles(after.objects, n0), SceneColliders(es, after.objects, n0), |es|)
       == Some(after.colliders)
    && InsertFresh(before.bodies, BodyHandles(after.objects, n0), SceneBodies(es), |es|) == Some(after.bodies)
  }

  /** Registering one more object under handles the arena does not hold extends a registration. */
  lemma RegisteredSnoc(before: Stage, mid: Stage, after: Stage, es: seq<SceneObject>, e: PhysicsObject, o: SceneObject)
    requires Sliceable(o) && forall j :: 0 <= j < |es| ==> Sliceable(es[j])
    requires Registered(before, mid, es)
    requires e.collider !in mid.colliders && e.body !in mid.bodies && after.objects == mid.objects + [e]
    requires after.colliders == mid.colliders[e.collider := SceneCollider(o, e.body)]
    requires after.bodies == mid.bodies[e.body := SceneBody(o)]
    ensures Registered(before, after, es + [o])
  {
    var n0 := |before.objects|;
    HandlesSnoc(mid.objects, n0, e);
    BuiltSnoc(es, mid.objects, n0, e, o);
    InsertFreshSnoc(before.colliders, ColliderHandles(mid.objects, n0), SceneColliders(es, mid.objects, n0),
                    mid.colliders, e.collider, SceneCollider(o, e.body));
    InsertFreshSnoc(before.bodies, BodyHandles(mid.objects, n0), SceneBodies(es), mid.bodies, e.body, SceneBody(o));
  }

  /**
   * What loading the first `n` entries of a scene does: every non-player
   * entry, in order, is appended to both lists with the collider and body
   * built for it under fresh handles, nothing else in the arena changes, and
   * the last entry tagged as the player (if any) is the template.
   */
  ghost predicate SceneLoaded(scene: seq<SceneObject>, n: nat, before: Stage, after: Stage)
    requires n <= |scene| && forall i :: 0 <= i < |scene| ==> Sliceable(scene[i])
  {
    && after.networkObjects == before.networkObjects + SceneView(SceneEntries(scene, n))
    && before.objects <= after.objects
    && Registered(before, after, SceneEntries(scene, n))
    && ObjectNets(after.objects, |before.objects|) == SceneView(SceneEntries(scene, n))
    && match LastPlayerIndex(scene, n)
       case None => after.defaultPlayer == before.defaultPlayer
       case Some(k) =>
         && after.defaultPlayer.Some? && after.defaultPlayer.value.id < U64_MAX
         && IsTemplateFor(after.defaultPlayer.value, scene[k])
  }

  lemma SceneLoadedEmpty(scene: seq<SceneObject>, before: Stage)
    requires forall i :: 0 <= i < |scene| ==> Sliceable(scene[i])
    ensures SceneLoaded(scene, 0, before, before)
  {
  }

  /** Loading one more entry extends what has been loaded so far. */
  lemma SceneLoadedSnoc(scene: seq<SceneObject>, n: nat, before: Stage, mid: Stage, after: Stage)
    requires n < |scene| && forall i :: 0 <= i < |scene| ==> Sliceable(scene[i])
    requires SceneLoaded(scene, n, before, mid) && EntryLoaded(scene[n], mid, after)
    ensures SceneLoaded(scene, n + 1, before, after)
  {
    var o := scene[n];
    var es := SceneEntries(scene, n);
    if Tag(o) != PLAYER_TAG {
      var e := after.objects[|mid.objects|];
      RegisteredSnoc(before, mid, after, es, e, o);
      HandlesSnoc(mid.objects, |before.objects|, e);
      SceneViewSnoc(es, o);
      AppendAssoc(before.networkObjects, SceneView(es), [SceneNetworkObject(o)]);
    }
  }

  // ---------------------------------------------------------------------
  // The invariants of the world, on values

  /** The object list and the network view have the same length and the same id at every index. */
  predicate Aligned(objs: seq<PhysicsObject>, nos: seq<NetworkObject>)
  {
    |objs| == |nos| && forall i :: 0 <= i < |objs| ==> objs[i].net.id == nos[i].id
  }

  lemma AlignedAppend(objs: seq<PhysicsObject>, nos: seq<NetworkObject>, e: PhysicsObject, o: NetworkObject)
    requires Aligned(objs, nos) && e.net.id == o.id
    ensures Aligned(objs + [e], nos + [o])
  {
  }

  /**
   * A player `new_player` makes from the template: a copy with fresh
   * controllers, its own collider handle and a random id below u64::MAX.
   */
  predicate SpawnedFrom(p: Player, template: Player)
  {
    && p.id < U64_MAX
    && p == template.(obj := DEFAULT_CONTROLLER, cameraController := DEFAULT_CONTROLLER,
                      collider := p.collider, id := p.id)
  }

  /** Every roster entry is stored under its player's id. */
  predicate KeyedById(roster: map<u64, Player>)
  {
    forall k :: k in roster ==> roster[k].id == k
  }

  lemma KeyedByIdInsert(roster: map<u64, Player>, p: Player)
    requires KeyedById(roster)
    ensures KeyedById(roster[p.id := p])
  {
  }

  /** Every handle in the arena was issued before `next`. */
  predicate CollidersIssued(cs: map<ColliderHandle, Collider>, next: nat)
  {
    forall h :: h in cs ==> h.index < next
  }

  predicate BodiesIssued(bs: map<RigidBodyHandle, RigidBody>, next: nat)
  {
    forall h :: h in bs ==> h.index < next
  }

  /** Issuing the next handle: it is not in use, and the arena stays issued. */
  lemma IssueCollider(cs: map<ColliderHandle, Collider>, next: nat, c: Collider)
    requires CollidersIssued(cs, next)
    ensures ColliderHandle(next) !in cs
    ensures CollidersIssued(cs[ColliderHandle(next) := c], next + 1)
  {
  }

  lemma IssueBody(bs: map<RigidBodyHandle, RigidBody>, next: nat, b: RigidBody)
    requires BodiesIssued(bs, next)
    ensures RigidBodyHandle(next) !in bs
    ensures BodiesIssued(bs[RigidBodyHandle(next) := b], next + 1)
  {
  }

  // ---------------------------------------------------------------------
  // The world

  class GameManager {
    var dt: F32
    var objects: seq<PhysicsObject>
    var networkObjects: seq<NetworkObject>
    var players: map<u64, Player>
    var defaultPlayer: Option<Player>
    var colliders: map<ColliderHandle, Collider>
    var bodies: map<RigidBodyHandle, RigidBody>
    /** The engine's next unused arena slots; a handle once issued is never issued again. */
    var nextCollider: nat
    var nextBody: nat
    /** Players sent by the player tasks and not yet handled (`sender`/`receiver`), oldest first. */
    var inbox: seq<Player>
    /** What the world has sent the player tasks (`nsender`), oldest first. */
    var outbox: seq<(Player, ResponseSignal)>

    /**
     * The two object lists stay aligned entry by entry, every roster entry
     * is keyed by its player's id, the template carries the vertex data new
     * players' colliders are built from, and every live handle was issued.
     */
    predicate Valid()
      reads this
    {
      && Aligned(objects, networkObjects)
      && KeyedById(players)
      && (defaultPlayer.Some? ==> defaultPlayer.value.vertices.Some?)
      && CollidersIssued(colliders, nextCollider)
      && BodiesIssued(bodies, nextBody)
    }

    /** Every object's collider is still in the arena (the refresh sweep unwraps it). */
    predicate Attached()
      reads this
    {
      forall i :: 0 <= i < |objects| ==> objects[i].collider in colliders
    }

    /** The parts of the world that scene loading changes, as one value. */
    function Staged(): Stage
      reads this
    {
      Stage(objects, networkObjects, colliders, bodies, defaultPlayer)
    }

    /** `GameManager::new`: an empty world ticking every 0.016 seconds. */
    constructor ()
      ensures Valid() && Attached()
      ensures dt == F32_0_016
      ensures objects == [] && networkObjects == [] && players == map[] && defaultPlayer == None
      ensures colliders == map[] && bodies == map[] && inbox == [] && outbox == []
    {
      dt := F32_0_016;
      objects := [];
      networkObjects := [];
      players := map[];
      defaultPlayer := None;
      colliders := map[];
      bodies := map[];
      nextCollider := 0;
      nextBody := 0;
      inbox := [];
      outbox := [];
    }

    /**
     * `add_object`: a new body at `position`, a collider of `shape` rotated by
     * `rotation` and attached to it, and the object (rotation (x, y, z, 1))
     * appended to both lists.
     */
    method AddObject(position: Vector3, rotation: Vector3, shape: Shape, bodyType: RigidBodyType,
                     restitution: F32, vertices: Mesh, name: string,
                     linearDamping: F32, additionalMass: F32, density: F32)
      requires Valid()
      modifies this
      ensures Valid()
      ensures old(Attached()) ==> Attached()
      ensures networkObjects
        == old(networkObjects) + [NewNetworkObject(name, position, Vector4(rotation.x, rotation.y, rotation.z, F32_ONE))]
      ensures |objects| == |old(objects)| + 1 && objects == old(objects) + [objects[|old(objects)|]]
      ensures var e := objects[|old(objects)|];
        && e.net == networkObjects[|old(objects)|]
        && e.collider !in old(colliders) && e.body !in old(bodies)
        && colliders == old(colliders)[e.collider := ObjectCollider(shape, rotation, restitution, density, vertices, e.body)]
        && bodies == old(bodies)[e.body := CreateBody(bodyType, position, linearDamping, additionalMass)]
      ensures players == old(players) && defaultPlayer == old(defaultPlayer) && dt == old(dt)
      ensures inbox == old(inbox) && outbox == old(outbox)
    {
      var netObject := NewNetworkObject(name, position, Vector4(rotation.x, rotation.y, rotation.z, F32_ONE));
      var body := CreateBody(bodyType, position, linearDamping, additionalMass);
      var bodyHandle := RigidBodyHandle(nextBody);
      IssueBody(bodies, nextBody, body);
      nextBody := nextBody + 1;
      bodies := bodies[bodyHandle := body];
      var colliderHandle := ColliderHandle(nextCollider);
      var collider := ObjectCollider(shape, rotation, restitution, density, vertices, bodyHandle);
      IssueCollider(colliders, nextCollider, collider);
      nextCollider := nextCollider + 1;
      colliders := colliders[colliderHandle := collider];
      var entry := PhysicsObject(netObject, colliderHandle, bodyHandle);
      AlignedAppend(objects, networkObjects, entry, netObject);
      objects := objects + [entry];
      networkObjects := networkObjects + [netObject];
    }

    /** `remove_player`: the player leaves the roster and its collider leaves the arena. */
    method RemovePlayer(id: u64)
      requires Valid() && id in players
      modifies this
      ensures Valid()
      ensures players == old(players) - {id}
      ensures colliders == old(colliders) - {old(players)[id].collider}
      ensures old(Attached()) && (forall i :: 0 <= i < |objects| ==> objects[i].collider != old(players)[id].collider)
        ==> Attached()
      ensures objects == old(objects) && networkObjects == old(networkObjects) && bodies == old(bodies)
      ensures defaultPlayer == old(defaultPlayer) && dt == old(dt) && inbox == old(inbox) && outbox == old(outbox)
    {
      var player := players[id];
      players := players - {id};
      colliders := colliders - {player.collider};
    }

    /**
     * `new_player`: a clone of the template under a random id below
     * `u64::MAX`, with default controllers and a fresh convex-hull collider
     * built from the template's vertices. The roster entry under that id is
     * replaced if there was one.
     */
    method NewPlayer() returns (p: Player)
      requires Valid() && defaultPlayer.Some?
      modifies this
      ensures Valid()
      ensures old(Attached()) ==> Attached()
      ensures SpawnedFrom(p, old(defaultPlayer).value)
      ensures p.collider !in old(colliders)
      ensures colliders == old(colliders)[p.collider := CreateCollider(CONVEX, F32_ZERO, F32_ONE, p.vertices)]
      ensures players == old(players)[p.id := p]
      ensures objects == old(objects) && networkObjects == old(networkObjects) && bodies == old(bodies)
      ensures defaultPlayer == old(defaultPlayer) && dt == old(dt) && inbox == old(inbox) && outbox == old(outbox)
    {
      var id: u64 :| id < U64_MAX;
      var template := defaultPlayer.value;
      var collider := CreateCollider(CONVEX, F32_ZERO, F32_ONE, template.vertices);
      var handle := ColliderHandle(nextCollider);
      IssueCollider(colliders, nextCollider, collider);
      nextCollider := nextCollider + 1;
      colliders := colliders[handle := collider];
      p := template.(obj := DEFAULT_CONTROLLER, cameraController := DEFAULT_CONTROLLER, collider := handle, id := id);
      KeyedByIdInsert(players, p);
      players := players[id := p];
    }

    /**
     * `create_player`: a new player record under a random id with the given
     * mesh. Its collider is inserted and removed again, so the arena is as
     * before and the player's handle is stale.
     */
    method CreatePlayer(speed: F32, position: Vector3, restitution: F32, density: F32, mass: F32,
                        vertices: Mesh, shape: Shape) returns (p: Player)
      requires Valid()
      modifies this
      ensures Valid()
      ensures p.id < U64_MAX
      ensures p == Players.NewPlayer(p.id, speed, DEFAULT_CONTROLLER, p.collider, position, mass, DEFAULT_CONTROLLER)
                     .(vertices := Some(vertices))
      ensures p.collider !in colliders
      ensures colliders == old(colliders) && players == old(players)
      ensures objects == old(objects) && networkObjects == old(networkObjects) && bodies == old(bodies)
      ensures defaultPlayer == old(defaultPlayer) && dt == old(dt) && inbox == old(inbox) && outbox == old(outbox)
    {
      var id: u64 :| id < U64_MAX;
      var collider := CreateCollider(shape, restitution, density, Some(vertices));
      var handle := ColliderHandle(nextCollider);
      IssueCollider(colliders, nextCollider, collider);
      nextCollider := nextCollider + 1;
      colliders := colliders[handle := collider];
      p := Players.NewPlayer(id, speed, DEFAULT_CONTROLLER, handle, position, mass, DEFAULT_CONTROLLER);
      p := p.(vertices := Some(vertices));
      colliders := colliders - {handle};
    }

    /**
     * `update_player`: the player is moved against the roster, stored under
     * its id, and sent back with a signal built from the updated roster.
     */
    method UpdatePlayer(phys: Physics, p: Player) returns (moved: Player)
      requires Valid()
      modifies this
      ensures Valid()
      ensures moved == MovePlayer(phys, old(players), p)
      ensures players == old(players)[p.id := moved]
      ensures |outbox| == |old(outbox)| + 1
      ensures outbox == old(outbox) + [(moved, outbox[|old(outbox)|].1)]
      ensures IsSignalFor(outbox[|old(outbox)|].1, moved, networkObjects, players)
      ensures objects == old(objects) && networkObjects == old(networkObjects) && colliders == old(colliders)
      ensures bodies == old(bodies) && defaultPlayer == old(defaultPlayer) && dt == old(dt) && inbox == old(inbox)
      ensures Attached() == old(Attached())
    {
      moved := MovePlayer(phys, players, p);
      KeyedByIdInsert(players, moved);
      players := players[moved.id := moved];
      var signal := BuildSignal(moved);
      assert IsSignalFor(signal, moved, networkObjects, players);
      outbox := outbox + [(moved, signal)];
    }

    /**
     * `build_signal`: the signal for `p` with the roster in whatever order
     * the map yields it.
     */
    method BuildSignal(p: Player) returns (signal: ResponseSignal)
      ensures IsSignalFor(signal, p, networkObjects, players)
    {
      var _ := EnumerationExists(players.Keys);
      var order :| Enumerates(order, players.Keys);
      signal := SignalFor(p, networkObjects, players, order);
    }

    /**
     * The sweep of `update`: every network object takes the pose the engine
     * reports for the collider of its last namesake among `objects`.
     */
    method Refresh(phys: Physics)
      requires Valid() && Attached()
      modifies this
      ensures Valid() && Attached()
      ensures |networkObjects| == |old(networkObjects)|
      ensures forall i :: 0 <= i < |networkObjects| ==> networkObjects[i] == Refreshed(phys, old(networkObjects)[i], objects)
      ensures objects == old(objects) && players == old(players) && colliders == old(colliders) && bodies == old(bodies)
      ensures defaultPlayer == old(defaultPlayer) && dt == old(dt) && inbox == old(inbox) && outbox == old(outbox)
    {
      var views := Sweep(phys, networkObjects, objects, colliders);
      assert Aligned(objects, views);
      networkObjects := views;
    }

    /**
     * The drain of `update`: every player waiting in the inbox, oldest
     * first, goes through `update_player`.
     */
    method Drain(phys: Physics)
      requires Valid()
      modifies this
      ensures Valid()
      ensures inbox == []
      ensures |old(outbox)| <= |outbox| && outbox[..|old(outbox)|] == old(outbox)
      ensures Drained(phys, networkObjects, old(players), old(inbox), players, outbox[|old(outbox)|..])
      ensures |outbox| == |old(outbox)| + |old(inbox)|
      ensures objects == old(objects) && networkObjects == old(networkObjects) && colliders == old(colliders)
      ensures bodies == old(bodies) && defaultPlayer == old(defaultPlayer) && dt == old(dt)
    {
      ghost var queue := inbox;
      ghost var msgs: seq<(Player, ResponseSignal)> := [];
      DrainedEmpty(phys, networkObjects, players, queue);
      while inbox != []
        invariant |msgs| <= |queue| && inbox == queue[|msgs|..]
        invariant Valid()
        invariant outbox == old(outbox) + msgs
        invariant Drained(phys, networkObjects, old(players), queue, players, msgs)
        invariant objects == old(objects) && networkObjects == old(networkObjects) && colliders == old(colliders)
        invariant bodies == old(bodies) && defaultPlayer == old(defaultPlayer) && dt == old(dt)
        decreases |inbox|
      {
        var p := inbox[0];
        assert p == queue[|msgs|];
        inbox := inbox[1..];
        assert inbox == queue[|msgs| + 1..];
        ghost var roster := players;
        var moved := UpdatePlayer(phys, p);
        ghost var msg := outbox[|outbox| - 1];
        DrainedSnoc(phys, networkObjects, old(players), queue, roster, msgs, moved, msg.1);
        AppendAssoc(old(outbox), msgs, [msg]);
        msgs := msgs + [msg];
      }
      assert outbox[|old(outbox)|..] == msgs;
    }

    /**
     * `update`, after the engine's step: the sweep, then the drain; the
     * drain's signals carry the refreshed objects.
     */
    method Update(phys: Physics)
      requires Valid() && Attached()
      modifies this
      ensures Valid() && Attached()
      ensures |networkObjects| == |old(networkObjects)|
      ensures forall i :: 0 <= i < |networkObjects| ==> networkObjects[i] == Refreshed(phys, old(networkObjects)[i], objects)
      ensures inbox == []
      ensures |old(outbox)| <= |outbox| && outbox[..|old(outbox)|] == old(outbox)
      ensures Drained(phys, networkObjects, old(players), old(inbox), players, outbox[|old(outbox)|..])
      ensures |outbox| == |old(outbox)| + |old(inbox)|
      ensures objects == old(objects) && colliders == old(colliders) && bodies == old(bodies)
      ensures defaultPlayer == old(defaultPlayer) && dt == old(dt)
    {
      Refresh(phys);
      Drain(phys);
    }

    /**
     * One arm of the match in `init_scene`: an entry tagged "Player" (after
     * its two-byte prefix) becomes the template; a "Ball" is added as a
     * sphere of its radius, any other entry with its own shape, both with
     * restitution, damping, mass and density 1.
     */
    method LoadEntry(o: SceneObject)
      requires Valid() && Sliceable(o)
      modifies this
      ensures Valid()
      ensures old(Attached()) ==> Attached()
      ensures EntryLoaded(o, old(Staged()), Staged())
      ensures players == old(players) && dt == old(dt) && inbox == old(inbox) && outbox == old(outbox)
    {
      var mesh := Mesh(o.vertices, o.indices);
      if Utf8.Encode(o.name)[2..] == PLAYER_TAG {
        var p := CreatePlayer(F32_ONE, o.position, F32_ZERO, F32_ONE, F32_HUNDRED, mesh, o.shape);
        defaultPlayer := Some(p);
      } else {
        var shape := if Utf8.Encode(o.name)[2..] == BALL_TAG then SPHERE(Sphere(o.radius)) else o.shape;
        AddObject(o.position, o.rotation, shape, o.bodyType, F32_ONE, mesh, o.name, F32_ONE, F32_ONE, F32_ONE);
      }
    }

    /**
     * `init_scene` over the loaded entries, in order: the last entry tagged
     * "Player" is the template, and every other entry is added as an object.
     */
    method InitScene(scene: seq<SceneObject>)
      requires Valid()
      requires forall i :: 0 <= i < |scene| ==> Sliceable(scene[i])
      modifies this
      ensures Valid()
      ensures old(Attached()) ==> Attached()
      ensures SceneLoaded(scene, |scene|, old(Staged()), Staged())
      ensures players == old(players) && dt == old(dt) && inbox == old(inbox) && outbox == old(outbox)
    {
      ghost var start := Staged();
      SceneLoadedEmpty(scene, start);
      var i := 0;
      while i < |scene|
        invariant 0 <= i <= |scene|
        invariant Valid()
        invariant old(Attached()) ==> Attached()
        invariant SceneLoaded(scene, i, start, Staged())
        invariant players == old(players) && dt == old(dt) && inbox == old(inbox) && outbox == old(outbox)
      {
        ghost var mid := Staged();
        LoadEntry(scene[i]);
        SceneLoadedSnoc(scene, i, start, mid, Staged());
        i := i + 1;
      }
    }
  }
}
