/**
 * The per-tick messages of src/player.rs and the player record.
 *
 * A `PlayerSignal` is what a client sends each frame; a `ResponseSignal`
 * is what the server sends back, and it nests one `ResponseSignal` per
 * player in the world. Both layouts are the derived ones: fields in
 * declaration order, counted lists preceded by their `usize` count.
 * Consecutive float fields are consecutive 4-byte words, so the three
 * fields of a `PlayerSignal` are six words and the five vectors of a
 * `ResponseSignal` are fifteen.
 */
module Players {
  import opened Wire
  import opened Objects

  type F32x2 = s: seq<F32> | |s| == 2 witness [0, 0]

  // ---------------------------------------------------------------------
  // PlayerSignal

  /** Desired movement (3 words), desired rotation (2 words), then the client's frame time. */
  datatype PlayerSignal = PlayerSignal(desiredMov: F32x3, desiredRot: F32x2, dt: F32)

  const PLAYER_SIGNAL_SIZE: nat := 24

  function PlayerSignalWords(p: PlayerSignal): (ws: seq<F32>)
    ensures |ws| == 6
  {
    p.desiredMov + p.desiredRot + [p.dt]
  }

  function EncodePlayerSignal(cfg: Config, p: PlayerSignal): (r: seq<byte>)
    ensures |r| == PLAYER_SIGNAL_SIZE
  {
    WriteWords(PlayerSignalWords(p), cfg.order)
  }

  /**
   * Reads the six words of a signal; fails exactly when fewer than 24
   * bytes remain, and otherwise consumed exactly the signal's encoding.
   */
  function DecodePlayerSignal(cfg: Config, s: seq<byte>): (r: Option<(PlayerSignal, seq<byte>)>)
    ensures r.Some? <==> |s| >= PLAYER_SIGNAL_SIZE
    ensures r.Some? ==> r.value.1 == s[PLAYER_SIGNAL_SIZE..]
    ensures r.Some? ==> EncodePlayerSignal(cfg, r.value.0) + r.value.1 == s
  {
    match ReadWords(6, s, cfg.order)
    case None => None
    case Some((ws, rest)) =>
      var p := PlayerSignal(ws[0..3], ws[3..5], ws[5]);
      assert PlayerSignalWords(p) == ws;
      Some((p, rest))
  }

  lemma DecodeEncodePlayerSignal(cfg: Config, p: PlayerSignal, rest: seq<byte>)
    ensures DecodePlayerSignal(cfg, EncodePlayerSignal(cfg, p) + rest) == Some((p, rest))
  {
    var ws := PlayerSignalWords(p);
    ReadWriteWords(ws, cfg.order, rest);
    assert ws[0..3] == p.desiredMov && ws[3..5] == p.desiredRot && ws[5] == p.dt;
  }

  // ---------------------------------------------------------------------
  // ResponseSignal

  datatype ResponseSignal = ResponseSignal(
    playerCount: nat,
    objectCount: nat,
    translation: F32x3,
    cameraPos: F32x3,
    cameraTarget: F32x3,
    fwd: F32x3,
    right: F32x3,
    players: seq<ResponseSignal>,
    objects: seq<NetworkObject>)

  /** The five vectors, in field order. */
  function Vectors(r: ResponseSignal): (ws: seq<F32>)
    ensures |ws| == 15
  {
    r.translation + r.cameraPos + r.cameraTarget + r.fwd + r.right
  }

  function EncodeResponse(cfg: Config, r: ResponseSignal): (b: seq<byte>)
    ensures |b| >= 2 * cfg.usizeWidth + 60
    decreases r
  {
    WriteUInt(r.playerCount, cfg.usizeWidth, cfg.order)
      + WriteUInt(r.objectCount, cfg.usizeWidth, cfg.order)
      + WriteWords(Vectors(r), cfg.order)
      + EncodeResponses(cfg, r.players)
      + EncodeObjects(cfg, r.objects)
  }

  /** The `players` list: each nested signal's encoding, in order. */
  function EncodeResponses(cfg: Config, rs: seq<ResponseSignal>): (b: seq<byte>)
    ensures |b| >= |rs| * (2 * cfg.usizeWidth + 60)
    decreases rs
  {
    if rs == [] then []
    else
      MulStep(|rs| - 1, 2 * cfg.usizeWidth + 60);
      EncodeResponse(cfg, rs[0]) + EncodeResponses(cfg, rs[1..])
  }

  /** The signals of a concatenation are written one list after the other. */
  lemma {:induction false} EncodeResponsesAppend(cfg: Config, a: seq<ResponseSignal>, b: seq<ResponseSignal>)
    ensures EncodeResponses(cfg, a + b) == EncodeResponses(cfg, a) + EncodeResponses(cfg, b)
  {
    if a != [] {
      assert (a + b)[0] == a[0] && (a + b)[1..] == a[1..] + b;
      EncodeResponsesAppend(cfg, a[1..], b);
      AppendAssoc(EncodeResponse(cfg, a[0]), EncodeResponses(cfg, a[1..]), EncodeResponses(cfg, b));
    } else {
      assert a + b == b;
    }
  }

  /**
   * Reads both counts, the fifteen vector words, exactly `player_count`
   * nested signals and exactly `object_count` objects; fails as soon as
   * any of them runs out of bytes. A successful decode is well formed at
   * every depth and consumed exactly the signal's encoding.
   */
  function DecodeResponse(cfg: Config, s: seq<byte>): (r: Option<(ResponseSignal, seq<byte>)>)
    ensures r.Some? ==> |s| >= 2 * cfg.usizeWidth + 60 && |r.value.1| < |s|
    ensures r.Some? ==> WellFormed(cfg, r.value.0) && EncodeResponse(cfg, r.value.0) + r.value.1 == s
    decreases |s|, 0
  {
    match ReadUInt(s, cfg.usizeWidth, cfg.order)
    case None => None
    case Some((pc, s1)) =>
      match ReadUInt(s1, cfg.usizeWidth, cfg.order)
      case None => None
      case Some((oc, s2)) =>
        match ReadWords(15, s2, cfg.order)
        case None => None
        case Some((ws, s3)) =>
          match DecodeResponses(cfg, pc, s3)
          case None => None
          case Some((ps, s4)) =>
            match DecodeObjects(cfg, oc, s4)
            case None => None
            case Some((os, s5)) =>
              var r := Assemble(pc, oc, ws, ps, os);
              EncodeResponseFromParts(cfg, s, r, s5, s1, s2, s3, s4);
              Some((r, s5))
  }

  /**
   * Reads exactly `n` nested signals (`#[deku(count = "player_count")]`).
   * A successful decode is a list of well-formed signals and consumed
   * exactly their encodings.
   */
  function DecodeResponses(cfg: Config, n: nat, s: seq<byte>): (r: Option<(seq<ResponseSignal>, seq<byte>)>)
    ensures r.Some? ==> |r.value.0| == n && |r.value.1| <= |s|
    ensures r.Some? ==> AllWellFormed(cfg, r.value.0) && EncodeResponses(cfg, r.value.0) + r.value.1 == s
    decreases |s|, 1, n
  {
    if n == 0 then
      assert EncodeResponses(cfg, []) + s == s;
      Some(([], s))
    else
      match DecodeResponse(cfg, s)
      case None => None
      case Some((p, s1)) =>
        match DecodeResponses(cfg, n - 1, s1)
        case None => None
        case Some((ps, s2)) =>
          var r := [p] + ps;
          assert r[0] == p && r[1..] == ps;
          EncodeResponsesCons(cfg, s, s1, r, s2);
          Some((r, s2))
  }

  /** Both counts equal their lists' lengths and fit the usize width, at every nesting depth. */
  predicate WellFormed(cfg: Config, r: ResponseSignal)
    decreases r
  {
    && r.playerCount == |r.players| && FitsUsize(cfg, r.playerCount)
    && r.objectCount == |r.objects| && FitsUsize(cfg, r.objectCount)
    && AllObjectsWellFormed(cfg, r.objects)
    && AllWellFormed(cfg, r.players)
  }

  predicate AllWellFormed(cfg: Config, rs: seq<ResponseSignal>)
    decreases rs
  {
    rs == [] || (WellFormed(cfg, rs[0]) && AllWellFormed(cfg, rs[1..]))
  }

  /** The fields of a signal read from its parts, as the decoder assembles them. */
  function Assemble(pc: nat, oc: nat, ws: seq<F32>, ps: seq<ResponseSignal>, os: seq<NetworkObject>): (r: ResponseSignal)
    requires |ws| == 15
    ensures Vectors(r) == ws
    ensures r.playerCount == pc && r.objectCount == oc && r.players == ps && r.objects == os
  {
    ResponseSignal(pc, oc, ws[0..3], ws[3..6], ws[6..9], ws[9..12], ws[12..15], ps, os)
  }

  lemma AssembleVectors(r: ResponseSignal)
    ensures Assemble(r.playerCount, r.objectCount, Vectors(r), r.players, r.objects) == r
  {
    var ws := Vectors(r);
    var a := r.translation + r.cameraPos + r.cameraTarget;
    var b := a + r.fwd;
    assert ws == b + r.right;
    assert ws[..12] == b && ws[12..15] == r.right;
    assert b[..9] == a && b[9..12] == r.fwd;
    assert a[..6] == r.translation + r.cameraPos && a[6..9] == r.cameraTarget;
    assert ws[0..3] == r.translation;
    assert ws[3..6] == r.cameraPos;
    assert ws[6..9] == r.cameraTarget;
    assert ws[9..12] == r.fwd;
  }

  /** A signal's encoding split at its two lists. */
  lemma EncodeResponseParts(cfg: Config, r: ResponseSignal, rest: seq<byte>)
    returns (s2: seq<byte>, s3: seq<byte>, s4: seq<byte>)
    ensures s4 == EncodeObjects(cfg, r.objects) + rest
    ensures s3 == EncodeResponses(cfg, r.players) + s4
    ensures s2 == WriteWords(Vectors(r), cfg.order) + s3
    ensures EncodeResponse(cfg, r) + rest
      == WriteUInt(r.playerCount, cfg.usizeWidth, cfg.order)
           + (WriteUInt(r.objectCount, cfg.usizeWidth, cfg.order) + s2)
  {
    var a, b := WriteUInt(r.playerCount, cfg.usizeWidth, cfg.order), WriteUInt(r.objectCount, cfg.usizeWidth, cfg.order);
    var c, d, e := WriteWords(Vectors(r), cfg.order), EncodeResponses(cfg, r.players), EncodeObjects(cfg, r.objects);
    s4 := e + rest;
    s3 := d + s4;
    s2 := c + s3;
    AppendAssoc(a + b + c + d, e, rest);
    AppendAssoc(a + b + c, d, s4);
    AppendAssoc(a + b, c, s3);
    AppendAssoc(a, b, s2);
  }

  /** When every field reads back, the decoder returns the signal they make. */
  lemma DecodeResponseSteps(cfg: Config, s: seq<byte>, r: ResponseSignal, s1: seq<byte>, s2: seq<byte>,
                            s3: seq<byte>, s4: seq<byte>, rest: seq<byte>)
    requires ReadUInt(s, cfg.usizeWidth, cfg.order) == Some((r.playerCount, s1))
    requires ReadUInt(s1, cfg.usizeWidth, cfg.order) == Some((r.objectCount, s2))
    requires ReadWords(15, s2, cfg.order) == Some((Vectors(r), s3))
    requires DecodeResponses(cfg, r.playerCount, s3) == Some((r.players, s4))
    requires DecodeObjects(cfg, r.objectCount, s4) == Some((r.objects, rest))
    ensures DecodeResponse(cfg, s) == Some((r, rest))
  {
    AssembleVectors(r);
  }

  lemma DecodeResponsesCons(cfg: Config, n: nat, s: seq<byte>, p: ResponseSignal, s1: seq<byte>,
                            tail: seq<ResponseSignal>, ps: seq<ResponseSignal>, rest: seq<byte>)
    requires n > 0 && ps == [p] + tail
    requires DecodeResponse(cfg, s) == Some((p, s1))
    requires DecodeResponses(cfg, n - 1, s1) == Some((tail, rest))
    ensures DecodeResponses(cfg, n, s) == Some((ps, rest))
  {
  }

  /** Decoding the encoding of a well-formed signal gives it back and leaves what followed. */
  lemma {:induction false} DecodeEncodeResponse(cfg: Config, r: ResponseSignal, rest: seq<byte>)
    requires WellFormed(cfg, r)
    ensures DecodeResponse(cfg, EncodeResponse(cfg, r) + rest) == Some((r, rest))
    decreases r, 1
  {
    var s2, s3, s4 := EncodeResponseParts(cfg, r, rest);
    var s1 := WriteUInt(r.objectCount, cfg.usizeWidth, cfg.order) + s2;
    ReadWriteUInt(r.playerCount, cfg.usizeWidth, cfg.order, s1);
    ReadWriteUInt(r.objectCount, cfg.usizeWidth, cfg.order, s2);
    ReadWriteWords(Vectors(r), cfg.order, s3);
    DecodeEncodeResponses(cfg, r.players, s4);
    DecodeEncodeObjects(cfg, r.objects, rest);
    DecodeResponseSteps(cfg, EncodeResponse(cfg, r) + rest, r, s1, s2, s3, s4, rest);
  }

  lemma {:induction false} DecodeEncodeResponses(cfg: Config, rs: seq<ResponseSignal>, rest: seq<byte>)
    requires AllWellFormed(cfg, rs)
    ensures DecodeResponses(cfg, |rs|, EncodeResponses(cfg, rs) + rest) == Some((rs, rest))
    decreases rs, 0
  {
    if rs != [] {
      var tail := EncodeResponses(cfg, rs[1..]) + rest;
      AppendAssoc(EncodeResponse(cfg, rs[0]), EncodeResponses(cfg, rs[1..]), rest);
      DecodeEncodeResponse(cfg, rs[0], tail);
      DecodeEncodeResponses(cfg, rs[1..], rest);
      HeadTail(rs);
      DecodeResponsesCons(cfg, |rs|, EncodeResponses(cfg, rs) + rest, rs[0], tail, rs[1..], rs, rest);
    } else {
      assert EncodeResponses(cfg, rs) + rest == rest;
    }
  }

  /** Assembling an encoding from the parts that a decode read. */
  lemma EncodeResponseFromParts(cfg: Config, s: seq<byte>, r: ResponseSignal, rest: seq<byte>,
                                s1: seq<byte>, s2: seq<byte>, s3: seq<byte>, s4: seq<byte>)
    requires s == WriteUInt(r.playerCount, cfg.usizeWidth, cfg.order) + s1
    requires s1 == WriteUInt(r.objectCount, cfg.usizeWidth, cfg.order) + s2
    requires s2 == WriteWords(Vectors(r), cfg.order) + s3
    requires s3 == EncodeResponses(cfg, r.players) + s4
    requires s4 == EncodeObjects(cfg, r.objects) + rest
    ensures EncodeResponse(cfg, r) + rest == s
  {
    var t2, t3, t4 := EncodeResponseParts(cfg, r, rest);
  }

  lemma EncodeResponsesCons(cfg: Config, s: seq<byte>, s1: seq<byte>, ps: seq<ResponseSignal>, rest: seq<byte>)
    requires ps != []
    requires WellFormed(cfg, ps[0]) && EncodeResponse(cfg, ps[0]) + s1 == s
    requires AllWellFormed(cfg, ps[1..]) && EncodeResponses(cfg, ps[1..]) + rest == s1
    ensures AllWellFormed(cfg, ps)
    ensures EncodeResponses(cfg, ps) + rest == s
  {
    AppendAssoc(EncodeResponse(cfg, ps[0]), EncodeResponses(cfg, ps[1..]), rest);
  }

  lemma DecodeEncodeResponseExtended(cfg: Config, s: seq<byte>, r: ResponseSignal, rest: seq<byte>, t: seq<byte>)
    requires WellFormed(cfg, r) && s == EncodeResponse(cfg, r) + rest
    ensures DecodeResponse(cfg, s + t) == Some((r, rest + t))
  {
    AppendAssoc(EncodeResponse(cfg, r), rest, t);
    DecodeEncodeResponse(cfg, r, rest + t);
  }

  /** Bytes after a decoded signal do not change what is decoded. */
  lemma DecodeResponseExtends(cfg: Config, s: seq<byte>, r: ResponseSignal, rest: seq<byte>, t: seq<byte>)
    requires DecodeResponse(cfg, s) == Some((r, rest))
    ensures DecodeResponse(cfg, s + t) == Some((r, rest + t))
  {
    DecodeEncodeResponseExtended(cfg, s, r, rest, t);
  }

  /** No strict prefix of bytes that decode to a signal with nothing left over decodes. */
  lemma PrefixDecodeFails(cfg: Config, e: seq<byte>, r: ResponseSignal, p: seq<byte>, t: seq<byte>)
    requires DecodeResponse(cfg, e) == Some((r, []))
    requires p + t == e && t != []
    ensures DecodeResponse(cfg, p) == None
  {
    if DecodeResponse(cfg, p).Some? {
      var (r', rest') := DecodeResponse(cfg, p).value;
      DecodeResponseExtends(cfg, p, r', rest', t);
      assert false;
    }
  }

  /** Decoding any strict prefix of a well-formed signal's encoding fails: the bytes run out. */
  lemma TruncatedResponseFails(cfg: Config, r: ResponseSignal, k: nat)
    requires WellFormed(cfg, r)
    requires k < |EncodeResponse(cfg, r)|
    ensures DecodeResponse(cfg, EncodeResponse(cfg, r)[..k]) == None
  {
    var e := EncodeResponse(cfg, r);
    DecodeEncodeResponse(cfg, r, []);
    assert e + [] == e;
    SplitAt(e, k);
    PrefixDecodeFails(cfg, e, r, e[..k], e[k..]);
  }

  // ---------------------------------------------------------------------
  // Constructors and the count update

  /** `ResponseSignal::new`: no players, no objects, both counts 0, the five vectors as arrays. */
  function NewResponseSignal(translation: Vector3, cameraPos: Vector3, cameraTarget: Vector3,
                             fwd: Vector3, right: Vector3): (r: ResponseSignal)
    ensures r.playerCount == 0 && r.objectCount == 0
    ensures r.players == [] && r.objects == []
    ensures r.translation == ToArray(translation) && r.cameraPos == ToArray(cameraPos)
    ensures r.cameraTarget == ToArray(cameraTarget)
    ensures r.fwd == ToArray(fwd) && r.right == ToArray(right)
  {
    ResponseSignal(0, 0, ToArray(translation), ToArray(cameraPos), ToArray(cameraTarget),
                   ToArray(fwd), ToArray(right), [], [])
  }

  /** A fresh signal is well formed at every width, so it always round-trips. */
  lemma NewResponseSignalWellFormed(cfg: Config, translation: Vector3, cameraPos: Vector3,
                                    cameraTarget: Vector3, fwd: Vector3, right: Vector3)
    ensures WellFormed(cfg, NewResponseSignal(translation, cameraPos, cameraTarget, fwd, right))
  {
    var r := NewResponseSignal(translation, cameraPos, cameraTarget, fwd, right);
    assert Pow256(cfg.usizeWidth) >= 1;
  }

  /** `ResponseSignal::default`: zero vectors, and forward for both `fwd` and `right`. */
  function DefaultResponseSignal(): (r: ResponseSignal)
    ensures r.players == [] && r.objects == [] && r.playerCount == 0 && r.objectCount == 0
    ensures r.translation == r.cameraPos == r.cameraTarget == [F32_ZERO, F32_ZERO, F32_ZERO]
    ensures r.fwd == r.right == [F32_ZERO, F32_ZERO, F32_ONE]
  {
    NewResponseSignal(ZERO, ZERO, ZERO, FORWARD, FORWARD)
  }

  /** `update()`: the two top-level counts take their lists' lengths; nothing else changes. */
  function UpdateCounts(r: ResponseSignal): (u: ResponseSignal)
    ensures u.playerCount == |r.players| && u.objectCount == |r.objects|
    ensures u.players == r.players && u.objects == r.objects
    ensures Vectors(u) == Vectors(r)
    ensures u.translation == r.translation && u.cameraPos == r.cameraPos
    ensures u.cameraTarget == r.cameraTarget && u.fwd == r.fwd && u.right == r.right
  {
    r.(playerCount := |r.players|, objectCount := |r.objects|)
  }

  lemma UpdateCountsIdempotent(r: ResponseSignal)
    ensures UpdateCounts(UpdateCounts(r)) == UpdateCounts(r)
  {
  }

  /** After the update a signal is well formed exactly when its lists are and their lengths fit. */
  lemma UpdateCountsWellFormed(cfg: Config, r: ResponseSignal)
    ensures WellFormed(cfg, UpdateCounts(r))
      <==> (AllWellFormed(cfg, r.players) && AllObjectsWellFormed(cfg, r.objects)
            && FitsUsize(cfg, |r.players|) && FitsUsize(cfg, |r.objects|))
  {
  }

  /** A well-formed signal is left as it is by the update. */
  lemma UpdateCountsOfWellFormed(cfg: Config, r: ResponseSignal)
    requires WellFormed(cfg, r)
    ensures UpdateCounts(r) == r
  {
  }

  // ---------------------------------------------------------------------
  // Player

  /** A character controller of the physics engine; only its identity matters here. */
  datatype CharacterController = CharacterController(settings: nat)

  /** `KinematicCharacterController::default()`. */
  const DEFAULT_CONTROLLER: CharacterController := CharacterController(0)

  datatype Player = Player(
    id: u64,
    obj: CharacterController,
    collider: ColliderHandle,
    position: Vector3,
    fwd: Vector3,
    cameraController: CharacterController,
    cameraPosition: Vector3,
    cameraTarget: Vector3,
    speed: F32,
    right: Vector3,
    pitch: F32,
    yaw: F32,
    mass: F32,
    dt: F32,
    vertices: Option<Mesh>)

  /** `Player::new`: the given fields, a camera at the origin looking forward, no rotation, no vertex data. */
  function NewPlayer(id: u64, speed: F32, handle: CharacterController, collider: ColliderHandle,
                     position: Vector3, mass: F32, camController: CharacterController): (p: Player)
    ensures p.id == id && p.speed == speed && p.obj == handle && p.collider == collider
    ensures p.position == position && p.mass == mass && p.cameraController == camController
    ensures p.pitch == F32_ZERO && p.yaw == F32_ZERO && p.dt == F32_ZERO
    ensures p.fwd == FORWARD && p.right == RIGHT
    ensures p.cameraPosition == ZERO && p.cameraTarget == FORWARD
    ensures p.vertices == None
  {
    Player(id, handle, collider, position, FORWARD, camController, ZERO, FORWARD,
           speed, RIGHT, F32_ZERO, F32_ZERO, mass, F32_ZERO, None)
  }

  /** The signal other clients receive about a player: its transform and camera, no lists. */
  function PlayerView(p: Player): (r: ResponseSignal)
    ensures r == NewResponseSignal(p.position, p.cameraPosition, p.cameraTarget, p.fwd, p.right)
    ensures r.players == [] && r.objects == []
  {
    NewResponseSignal(p.position, p.cameraPosition, p.cameraTarget, p.fwd, p.right)
  }

  /**
   * The decode step of `get_state`: a signal read from offset 0 of the
   * 1024-byte receive buffer. The fixed 24-byte layout always fits, so the
   * result is never None, and the bytes after the signal play no part.
   */
  function GetState(cfg: Config, buffer: seq<byte>): (r: Option<PlayerSignal>)
    requires |buffer| == 1024
    ensures r.Some?
    ensures EncodePlayerSignal(cfg, r.value) == buffer[..PLAYER_SIGNAL_SIZE]
  {
    match DecodePlayerSignal(cfg, buffer)
    case Some((p, _)) => Some(p)
    case None => None
  }

  /** Whatever follows a signal in the buffer, `get_state` returns that signal. */
  lemma GetStateOfEncoding(cfg: Config, p: PlayerSignal, padding: seq<byte>)
    requires |padding| == 1024 - PLAYER_SIGNAL_SIZE
    ensures GetState(cfg, EncodePlayerSignal(cfg, p) + padding) == Some(p)
  {
    DecodeEncodePlayerSignal(cfg, p, padding);
  }
}
