# Multiplayer FPS server core, in Dafny

This project models the server side of a small multiplayer first-person
shooter. Clients open or join password-protected sessions, and each session
owns one physics world. Player tasks send movement updates to the world,
and every tick the world answers each player with a snapshot: the player's
own transform, a view of every player in the roster, and every network
object.

The model covers three parts of the server:

- **Wire codec** (modules `Wire`, `Utf8`, `Objects`, `Players`, `Sessions`):
  - the derived byte layouts of `PlayerSignal`, `ResponseSignal` (which nests
    itself through `players`) and `NetworkObject`;
  - the layouts of the session requests `NewSessionRequest` and `JoinSessionRequest`;
  - the one-byte-tagged enums `ServerRequest` and `JoinResponse`.

  Every encoder is a function. Every decoder is a function from bytes to
  `Option<(value, rest)>`, and its own contract says that a success is well
  formed and consumed exactly the value's encoding. Lemmas prove the round
  trips. A `usize` count is a fixed-width word whose width and byte order are
  the parameter `Config`. `NATIVE` is a 64-bit little-endian target (8-byte
  counts, little endian); deku takes both from the compilation target. An `f32` is an opaque 32-bit word holding its IEEE-754 bits.
- **World bookkeeping** (module `Game`, class `GameManager`). This covers:
  - the roster (a map from id to player);
  - the two aligned object lists;
  - adding and removing objects and players;
  - the pose-refresh sweep and the FIFO drain that follow the physics step;
  - building a player's snapshot;
  - scene loading's dispatch on object names.

  Physics results are a parameter `Physics` with three function fields:
  collider translation, collider rotation, and where the character
  controller moves a player. Collider and body handles are slots of two
  arenas. The arenas never reuse a slot.
- **Session admission** (module `Sessions`, class `Session`). This covers:
  - opening a session, which refuses a password that is not UTF-8;
  - the password check of `join_player`;
  - the order of work in `Session::update`: replace the world if a
    replacement is waiting, then answer every waiting join request, then run
    one world tick.

  Channels are sequence fields, oldest message first. The bytes written to
  the joining clients' streams and the players handed to spawned tasks are
  logs (`written` and `tasks`).

Observations from the code:
- A successful join sends nothing on the session's response channel.
- `player_limit` is stored, but admission never looks at it.
- Random player ids are not checked against the roster, so a collision
  replaces an existing entry. `Game.GameManager.NewPlayer` states this.

`Session::new` refuses only with `Reason::InvalidPassword`
(src/session.rs:103), so `Sessions.Reason` has that one variant.

## Model

| member | source | states |
|---|---|---|
| Wire.ReadUInt | src/player.rs:16-19 | A `usize` count reads back exactly when enough bytes remain; the value is below 256^width and the bytes consumed are its encoding |
| Wire.WriteUInt | src/player.rs:16-19 | A count is written as exactly width bytes, and read back in the configured byte order those bytes hold the count whenever it fits the width |
| Wire.ReadWriteUInt | src/objects.rs:57-58 | A count that fits the width reads back from its own encoding, leaving what followed |
| Wire.ReadWords | src/player.rs:9-11 | Reading n f32 words fails exactly when fewer than 4n bytes remain; otherwise it consumes exactly their encoding |
| Wire.WriteWords | src/player.rs:9-11 | n f32 words are written as exactly 4n bytes |
| Wire.WriteWordsAppend | src/player.rs:20-24 | Consecutive word arrays are written one after the other with nothing between them |
| Wire.ReadWriteWords | src/objects.rs:55-56 | Fixed arrays of f32 words round-trip |
| Wire.ReadBytes | src/objects.rs:59-60 | A counted `Vec<u8>` takes exactly n bytes and fails when fewer remain |
| Wire.Neg | src/game.rs:123 | Float negation flips only the sign bit |
| Wire.NegNeg | src/game.rs:123 | Negating twice gives the word back |
| Utf8.Encode | src/session.rs:17-22 | `as_bytes` gives between one and four bytes per character |
| Utf8.EncodeAppend | src/session.rs:17-22 | The bytes of a concatenation are the bytes of its parts, one after the other |
| Utf8.EncodeIsUtf8 | src/session.rs:17-22 | The bytes of any `str` are well-formed UTF-8, so `String::from_utf8` of them succeeds |
| Utf8.EncodeCharLength | src/session.rs:88 | An encoded character is recognised as exactly one character of its own length |
| Utf8.EncodeAscii | src/game.rs:250 | An ASCII string's bytes are its character codes, one byte each |
| Utf8.AsciiPrefixBoundary | src/game.rs:250 | Byte 2 is a character boundary of any name whose first two characters are ASCII, so `&name[2..]` does not panic |
| Objects.CuboidOf | src/objects.rs:39-44 | Returns the payload exactly when the shape is CUBOID, and fails (the panic) otherwise |
| Objects.SphereOf | src/objects.rs:45-50 | Returns the payload exactly when the shape is SPHERE, and fails (the panic) otherwise |
| Objects.CreateCollider | src/objects.rs:110-145 | Vertex data is required only for CONVEX, MULTI and SensorMulti; only SensorMulti is a sensor and only it has no restitution; the density is always the given one; box and ball geometry come from the payload and convex geometry from the vertices |
| Objects.CreateColliderIgnoresVertices | src/objects.rs:116-124 | CUBOID and SPHERE colliders do not depend on the vertex argument |
| Objects.CreateBody | src/objects.rs:147-178 | Every body type gets the given translation, damping and additional mass |
| Objects.NewNetworkObject | src/objects.rs:64-71 | The id is the name's UTF-8 bytes, `id_len` is their number, the position is copied and the rotation is stored as [x, y, z, w] |
| Objects.EncodeObject | src/objects.rs:53-61 | An object takes 28 bytes, one count and its id bytes |
| Objects.DecodeObject | src/objects.rs:53-61 | A decoded object has `id_len == \|id\|` and consumed exactly position, rotation, count and id |
| Objects.DecodeEncodeObject | src/objects.rs:53-61 | An object whose count equals its id length round-trips with nothing extra consumed |
| Objects.EncodeObjects | src/player.rs:27-28 | A list of n objects is written as at least n·(28 + width) bytes |
| Objects.EncodeObjectsAppend | src/player.rs:27-28 | Joining two object lists joins their encodings, so every object is written in list order |
| Objects.DecodeObjects | src/player.rs:27-28 | Reads exactly `object_count` objects, each well formed, consuming exactly their encodings |
| Objects.DecodeEncodeObjects | src/player.rs:27-28 | Any list of well-formed objects round-trips |
| Objects.NewNetworkObjectRoundTrips | src/objects.rs:64-71 | An object built by `NetworkObject::new` round-trips whenever its id length fits the width |
| Players.DecodePlayerSignal | src/player.rs:7-12 | A signal is six words (movement 3, rotation 2, dt); decoding fails exactly when fewer than 24 bytes remain and otherwise consumes exactly 24 |
| Players.EncodePlayerSignal | src/player.rs:7-12 | A signal is written as exactly 24 bytes |
| Players.DecodeEncodePlayerSignal | src/player.rs:7-12 | Signals round-trip with nothing left over |
| Players.DecodeResponse | src/player.rs:14-29 | Reads two counts, five three-word vectors, exactly `player_count` nested signals and exactly `object_count` objects; a success is well formed at every depth and consumed exactly its encoding |
| Players.DecodeResponses | src/player.rs:25-26 | Reads exactly n nested signals, each well formed |
| Players.DecodeEncodeResponse | src/player.rs:14-29 | Every signal whose counts equal its list lengths at every depth round-trips, including empty lists and lists of several entries |
| Players.DecodeEncodeResponses | src/player.rs:25-26 | Lists of well-formed nested signals round-trip |
| Players.EncodeResponse | src/player.rs:14-29 | A signal is written as at least 2·width + 60 bytes, two counts and fifteen words before its lists |
| Players.EncodeResponses | src/player.rs:25-26 | n nested signals are written as at least n·(2·width + 60) bytes |
| Players.EncodeResponsesAppend | src/player.rs:25-26 | Joining two signal lists joins their encodings, so every nested signal is written in list order |
| Players.DecodeResponseExtends | src/player.rs:14-29 | Bytes after a decoded signal do not change what is decoded |
| Players.PrefixDecodeFails | src/player.rs:14-29 | No strict prefix of a signal's exact encoding decodes |
| Players.TruncatedResponseFails | src/player.rs:14-29 | Decoding a truncated encoding fails (the bytes run out) |
| Players.NewResponseSignal | src/player.rs:32-50 | Both counts are 0, both lists are empty, and the five vectors are copied unchanged |
| Players.NewResponseSignalWellFormed | src/player.rs:32-50 | A fresh signal is well formed at every width |
| Players.DefaultResponseSignal | src/player.rs:53-63 | Zero vectors, forward for `fwd` and `right`, empty lists |
| Players.UpdateCounts | src/player.rs:16-19 | Sets `player_count` to \|players\| and `object_count` to \|objects\| and changes nothing else |
| Players.UpdateCountsIdempotent | src/player.rs:16-19 | Updating twice equals updating once |
| Players.UpdateCountsWellFormed | src/player.rs:16-29 | After the update a signal is well formed exactly when its lists are and their lengths fit the width |
| Players.UpdateCountsOfWellFormed | src/player.rs:16-19 | The update leaves a well-formed signal unchanged |
| Players.NewPlayer | src/player.rs:85-111 | The given fields, zero pitch, yaw and dt, forward and right axes, camera at the origin looking forward, no vertex data |
| Players.PlayerView | src/game.rs:152-159 | A player's view is a fresh signal of its transform and camera |
| Players.GetState | src/player.rs:152-160 | Decoding from offset 0 of the 1024-byte buffer never fails and reads the buffer's first 24 bytes |
| Players.GetStateOfEncoding | src/player.rs:152-160 | Whatever follows a signal in the buffer, that signal is returned |
| Game.WireRotation | src/game.rs:123 | The wire rotation is [z, y, x, -w] of the collider's quaternion |
| Game.LastMatch | src/game.rs:116-126 | The last entry with a given id, or none when no entry has it |
| Game.Refreshed | src/game.rs:116-126 | A refreshed object keeps its id and count |
| Game.RefreshedMatches | src/game.rs:116-126 | An object with a namesake takes the pose of the collider of the last namesake |
| Game.RefreshedUnmatched | src/game.rs:116-126 | An object without a namesake is unchanged |
| Game.RefreshedIdempotent | src/game.rs:116-126 | Refreshing twice against the same poses equals refreshing once |
| Game.RefreshedStep | src/game.rs:117-124 | One more inner iteration: a namesake overwrites the pose, any other entry changes nothing |
| Game.Sweep | src/game.rs:116-126 | The nested loop keeps the list's length and refreshes each object against all entries |
| Game.MovePlayer | src/game.rs:43-63 | Only the position changes; a player the roster does not know is unchanged |
| Game.RosterAfterKeys | src/game.rs:127-138 | Draining a queue adds exactly the queued ids to the roster |
| Game.RosterAfterKeyed | src/game.rs:133-135 | Draining keeps every entry stored under its player's id |
| Game.RosterAfterUntouched | src/game.rs:127-135 | A player whose id nobody queued is not touched |
| Game.EnumerationExists | src/game.rs:149-151 | Every roster has an iteration order |
| Game.EnumerationFacts | src/game.rs:149-151 | An iteration order lists every key exactly once |
| Game.Views | src/game.rs:149-161 | One view per key, in the iteration order |
| Game.SignalFor | src/game.rs:140-164 | The player's own vectors, `objects` equal to the network objects, one player entry per roster player, both counts equal to both lengths |
| Game.SignalForRoster | src/game.rs:149-161 | The `players` list holds a view of every roster player and nothing else |
| Game.SignalForWellFormed | src/game.rs:140-164 | The signal round-trips exactly when its objects are well formed and both lengths fit the width |
| Game.DrainedSnoc | src/game.rs:127-138 | Handling the next queued player extends the drain by exactly its message |
| Game.Tag | src/game.rs:250 | The matched name is the encoding of the name without its first two bytes |
| Game.SceneShape | src/game.rs:263-278 | A "Ball" becomes a sphere of the object's radius; any other name keeps its shape |
| Game.SceneEntries | src/game.rs:249-288 | The entries that become objects exclude every "Player" entry |
| Game.LastPlayerIndex | src/game.rs:249-262 | The last "Player" entry, if any, is the one whose player becomes the template |
| Game.SceneEntriesWithoutPlayer | src/game.rs:249-288 | Without a "Player" entry, every scene entry becomes an object, in order |
| Game.SceneView | src/game.rs:263-286 | One network object per added entry, in order |
| Game.SceneLoadedSnoc | src/game.rs:249-288 | Loading one more entry extends the loaded prefix by that entry's match arm, arena included |
| Game.InsertFreshPrefix | src/game.rs:216-220 | Inserting handles reads only the handles and values inserted so far |
| Game.InsertFreshSnoc | src/game.rs:216-220 | An arena insertion under one more unused handle extends a successful run of insertions by that binding |
| Game.InsertFreshMeaning | src/game.rs:216-220 | After successful insertions, every old binding is kept, the keys are the old keys plus the new handles, each new handle was unused, no two new handles are equal, and each holds its own value |
| Game.RegisteredSnoc | src/game.rs:216-223 | Adding one object whose collider and body take unused handles extends the arena registration of the added entries by that object |
| Game.AsciiTag | src/game.rs:250 | For an ASCII name of at least two characters, `&name[2..]` does not panic, and the entry is "Player" or "Ball" exactly when the name's text after two characters is |
| Game.ObjectCollider | src/game.rs:212-220 | The collider of `add_object` has the shape's geometry, the given rotation and density, and the new body as parent |
| Game.AlignedAppend | src/game.rs:221-223 | Pushing the same object to both lists keeps them aligned |
| Game.KeyedByIdInsert | src/game.rs:330 | Inserting a player under its id keeps the roster keyed by id |
| Game.IssueCollider | src/game.rs:218-220 | A newly issued collider handle is not in use |
| Game.IssueBody | src/game.rs:216-217 | A newly issued body handle is not in use |
| Game.GameManager.constructor | src/game.rs:166-192 | An empty world with dt 0.016 and no template |
| Game.GameManager.AddObject | src/game.rs:194-224 | One entry is appended to `objects` and the same `NetworkObject`, with rotation (rx, ry, rz, 1), to `network_objects`; the new collider and body take fresh handles; nothing else changes |
| Game.GameManager.RemovePlayer | src/game.rs:236-245 | Needs the id to be present; afterwards it is absent, every other entry is unchanged, and the player's collider has left the arena |
| Game.GameManager.NewPlayer | src/game.rs:320-332 | Needs a template; the result is the template with default controllers, a fresh convex collider and a random id below u64::MAX; it is stored under that id and every other entry is unchanged |
| Game.GameManager.CreatePlayer | src/game.rs:290-319 | A player built by `Player::new` with the given fields; its collider is inserted and removed, so the arena is unchanged |
| Game.GameManager.UpdatePlayer | src/game.rs:133-138 | The roster holds the moved player under its id, and exactly one (player, signal) pair is sent, with the signal built after the insert |
| Game.GameManager.BuildSignal | src/game.rs:140-164 | The result is the snapshot for some iteration order of the roster |
| Game.GameManager.Refresh | src/game.rs:116-126 | Every network object is refreshed against the object list; the length and ids are kept |
| Game.GameManager.Drain | src/game.rs:127-130 | The queue is emptied in FIFO order with one `update_player` per queued player; the sent messages are exactly those |
| Game.GameManager.Update | src/game.rs:94-131 | Every network object is refreshed, then the whole queue is drained in FIFO order, so every message carries the refreshed objects; the object lists, arena and template are unchanged |
| Game.GameManager.LoadEntry | src/game.rs:250-287 | One arm of the match: "Player" replaces the template only; anything else appends its network view to both object lists, with a fresh collider and body built for it |
| Game.GameManager.InitScene | src/game.rs:247-289 | Every non-player entry's network view (name bytes, position, rotation (x, y, z, 1)) is added, in scene order, to both object lists. Its collider and body are built for it and inserted under handles that were unused and that no other added entry shares. Every collider and body already present is kept and nothing else enters the arenas. The last "Player" entry is the template |
| Sessions.DecodeCounted | src/session.rs:5-8 | A decoded field's count equals its byte length and the bytes consumed are its encoding |
| Sessions.DecodeEncodeCounted | src/session.rs:9-12 | A counted field round-trips |
| Sessions.NewSession | src/session.rs:17-25 | The counts are the byte lengths of the UTF-8 fields and the player limit is 8 |
| Sessions.JoinSession | src/session.rs:41-48 | The counts are the byte lengths of the UTF-8 fields |
| Sessions.NewSessionWellFormed | src/session.rs:16-26 | A request built from strings is well formed when its lengths fit the width |
| Sessions.JoinSessionWellFormed | src/session.rs:40-49 | A request built from strings is well formed when its lengths fit the width |
| Sessions.EncodeNew | src/session.rs:3-14 | Id count, id, password count, password, limit: 2 counts + both fields + 1 byte |
| Sessions.DecodeNew | src/session.rs:3-14 | A decoded request is well formed and consumed exactly its encoding |
| Sessions.DecodeEncodeNew | src/session.rs:3-14 | Requests whose counts equal their lengths round-trip |
| Sessions.EncodeJoin | src/session.rs:28-38 | Id count, id, password count, password, with no limit byte |
| Sessions.DecodeJoin | src/session.rs:28-38 | A decoded request is well formed and consumed exactly its encoding |
| Sessions.DecodeEncodeJoin | src/session.rs:28-38 | Requests whose counts equal their lengths round-trip |
| Sessions.EncodeRequest | src/session.rs:51-58 | The first byte is the variant tag, 0x1 exactly for NewSession |
| Sessions.DecodeRequest | src/session.rs:51-58 | Empty input or any tag other than 0x1 and 0x2 fails; a success is well formed and consumed exactly its encoding |
| Sessions.DecodeEncodeRequest | src/session.rs:51-58 | Both variants round-trip |
| Sessions.EncodeJoinResponse | src/session.rs:60-67 | One byte: 0x1 for Ok and 0x2 for WrongPassword |
| Sessions.DecodeJoinResponse | src/session.rs:60-67 | Succeeds exactly on bytes 0x1 and 0x2 |
| Sessions.DecodeEncodeJoinResponse | src/session.rs:60-67 | Both answers round-trip |
| Sessions.RepliesAccounted | src/session.rs:117-135 | Every request is answered exactly once on its own stream, in order; refusals are also sent on the channel; refusals and admissions add up to the number of requests |
| Sessions.AdmissionsBounds | src/session.rs:120-130 | No request is admitted without the password, and every request with it is admitted |
| Sessions.AdmitKeys | src/session.rs:130 | Admitting adds exactly the admitted players' ids to the roster |
| Sessions.AdmitLatest | src/session.rs:130 | Under an admitted id, the roster holds the last player admitted with that id |
| Sessions.AdmitUntouched | src/session.rs:120-129 | An id that no admitted player has keeps its roster entry |
| Sessions.ArmedSnoc | src/game.rs:326-327 | One more admitted player, with its convex collider under an unused handle, extends the colliders issued for the admissions |
| Sessions.ArmedKeys | src/game.rs:326-327 | After the admissions the collider arena keeps every old collider and gains exactly the admitted players' handles, each unused before and no two equal |
| Sessions.JoinedSnoc | src/session.rs:111-113 | Answering one more request extends the answers, the admissions, the roster and the collider arena of the requests answered so far |
| Sessions.TickKeys | src/session.rs:107-115 | After a session tick the roster's keys are the previous keys, the admitted ids and the queued movers' ids |
| Sessions.Session.constructor | src/session.rs:89-99 | A session with the given fields that has sent nothing |
| Sessions.Session.JoinPlayer | src/session.rs:117-153 | With a wrong password: writes WrongPassword and sends (WrongPassword, None); the roster and the collider arena are unchanged. With the right one: calls `new_player` exactly once, writes Ok, spawns its task and sends nothing. The new player is a template clone stored under its id, and its convex collider goes under a handle the arena did not hold. `player_limit` plays no part |
| Sessions.Session.Update | src/session.rs:107-115 | Applies at most one waiting world replacement, then answers the whole join queue, then runs one world tick that sees the admitted players. The world's collider arena gains exactly one fresh convex collider per admitted player |
| Sessions.Open | src/session.rs:81-105 | Fails with `InvalidPassword` exactly when the password is not UTF-8, and needs the id to be UTF-8 when it is; otherwise copies the id, password and player limit |

## Left out

- The physics engine: `pipeline.step`, `move_shape`, collision impulses (`solve_collisions`), the collider update of `update_collider`, and the builders' internals. Their results are the `Physics` parameter. Colliders and bodies are descriptor records.
- Game.MovePlayer: the moved position is whatever `Physics.moveTo` says; the engine's collision response is not modelled.
- The same `Physics` value answers every lookup within one tick. The effect of one player's move on the next player's sweep within a tick is not modelled.
- Floating-point arithmetic: gravity and position integration, the camera rotation and clamp, and `-w` beyond its sign-bit shape. `f32` values are opaque words.
- Concurrency: tokio tasks, the tick interval and the crossbeam channels. Channels are FIFO sequence fields.
- TCP streams: their writes are the `written` log and their flush is omitted. The spawned `Player::update` task is the `tasks` log; its loop, `update_camera` and the socket reads are not modelled beyond the decode step of `get_state`.
- Random ids: a nondeterministic choice below u64::MAX, with no uniqueness assumed.
- HashMap iteration order in `build_signal`: any enumeration of the roster.
- `create_light` and raylib rendering.
- `src/main.rs`, `src/network.rs`, `src/custom_events.rs` and `src/reader.rs`: process bootstrap, per-connection I/O, physics event draining and OBJ file reading. `load_scene` is not part of this model: `init_scene` takes its result as an input sequence.
- Game.GameManager.InitScene: `&object.name[2..]` (src/game.rs:250) panics on a name shorter than two bytes or one whose byte 2 falls inside a character. The model does not capture that panic: `Sliceable` is required of every entry of `InitScene`, `LoadEntry` and `Tag`. `Game.AsciiTag` shows that a name starting with two ASCII characters meets it.
- `convex_hull` failure (the `unwrap` at src/objects.rs:126): the collider descriptor always exists.
- Game.GameManager.NewPlayer: the engine's handle allocation is a fresh-slot counter, and other engine state is not modelled.
- Sessions.Open: the response channel that `Session::new` returns is the session's `responses` field, and the unused `manager_sender` is not modelled.
- Sessions.Session.Update: `Session::update` awaits the tick interval inside `GameManager::update`; the time it waits is not modelled.
