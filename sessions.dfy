/**
 * Session admission: the requests a client sends to open or join a
 * session, their wire layouts, the one-byte answer to a join, and the
 * session object that admits joining players into its world.
 */
module Sessions {
  import opened Wire
  import Utf8
  import opened Objects
  import opened Players
  import opened Game

  /** Why `Session::new` refused to open a session: the only refusal it makes. */
  datatype Reason = InvalidPassword

  // ---------------------------------------------------------------------
  // Counted byte fields: a usize count followed by that many bytes

  function EncodeCounted(cfg: Config, count: nat, bytes: seq<byte>): (r: seq<byte>)
    ensures |r| == cfg.usizeWidth + |bytes|
  {
    WriteUInt(count, cfg.usizeWidth, cfg.order) + bytes
  }

  /**
   * Reads a count and then that many bytes. A successful read has a count
   * that agrees with the bytes and consumed exactly their encoding.
   */
  function DecodeCounted(cfg: Config, s: seq<byte>): (r: Option<(nat, seq<byte>, seq<byte>)>)
    ensures r.Some? ==> r.value.0 == |r.value.1| && FitsUsize(cfg, r.value.0)
    ensures r.Some? ==> EncodeCounted(cfg, r.value.0, r.value.1) + r.value.2 == s
  {
    match ReadUInt(s, cfg.usizeWidth, cfg.order)
    case None => None
    case Some((n, s1)) =>
      match ReadBytes(n, s1)
      case None => None
      case Some((b, s2)) =>
        AppendAssoc(WriteUInt(n, cfg.usizeWidth, cfg.order), b, s2);
        Some((n, b, s2))
  }

  lemma DecodeEncodeCounted(cfg: Config, b: seq<byte>, rest: seq<byte>)
    requires FitsUsize(cfg, |b|)
    ensures DecodeCounted(cfg, EncodeCounted(cfg, |b|, b) + rest) == Some((|b|, b, rest))
  {
    AppendAssoc(WriteUInt(|b|, cfg.usizeWidth, cfg.order), b, rest);
    ReadWriteUInt(|b|, cfg.usizeWidth, cfg.order, b + rest);
    ReadBytesPrefix(b, rest);
  }

  // ---------------------------------------------------------------------
  // The requests

  /** Open a session: id, password and the player limit. */
  datatype NewSessionRequest = NewSessionRequest(idCount: nat, id: seq<byte>, count: nat, password: seq<byte>,
                                                 playerLimit: byte)

  /** Join a session: id and password. */
  datatype JoinSessionRequest = JoinSessionRequest(idCount: nat, id: seq<byte>, count: nat, password: seq<byte>)

  const DEFAULT_PLAYER_LIMIT: byte := 8

  /** Each count agrees with its field and fits the usize width. */
  predicate NewWellFormed(cfg: Config, r: NewSessionRequest)
  {
    r.idCount == |r.id| && r.count == |r.password| && FitsUsize(cfg, r.idCount) && FitsUsize(cfg, r.count)
  }

  predicate JoinWellFormed(cfg: Config, r: JoinSessionRequest)
  {
    r.idCount == |r.id| && r.count == |r.password| && FitsUsize(cfg, r.idCount) && FitsUsize(cfg, r.count)
  }

  /** `NewSessionRequest::new`: the strings' UTF-8 bytes, their byte counts, and a limit of 8 players. */
  function NewSession(id: string, password: string): (r: NewSessionRequest)
    ensures r.id == Utf8.Encode(id) && r.password == Utf8.Encode(password)
    ensures r.idCount == |r.id| && r.count == |r.password|
    ensures Utf8.IsUtf8(r.id) && Utf8.IsUtf8(r.password)
    ensures r.playerLimit == DEFAULT_PLAYER_LIMIT
  {
    Utf8.EncodeIsUtf8(id);
    Utf8.EncodeIsUtf8(password);
    var i, p := Utf8.Encode(id), Utf8.Encode(password);
    NewSessionRequest(|i|, i, |p|, p, DEFAULT_PLAYER_LIMIT)
  }

  /** `JoinSessionRequest::new`: the strings' UTF-8 bytes and their byte counts. */
  function JoinSession(id: string, password: string): (r: JoinSessionRequest)
    ensures r.id == Utf8.Encode(id) && r.password == Utf8.Encode(password)
    ensures r.idCount == |r.id| && r.count == |r.password|
  {
    var i, p := Utf8.Encode(id), Utf8.Encode(password);
    JoinSessionRequest(|i|, i, |p|, p)
  }

  /** A request built from strings is well formed whenever its byte lengths fit the usize width. */
  lemma NewSessionWellFormed(cfg: Config, id: string, password: string)
    requires FitsUsize(cfg, |Utf8.Encode(id)|) && FitsUsize(cfg, |Utf8.Encode(password)|)
    ensures NewWellFormed(cfg, NewSession(id, password))
  {
  }

  lemma JoinSessionWellFormed(cfg: Config, id: string, password: string)
    requires FitsUsize(cfg, |Utf8.Encode(id)|) && FitsUsize(cfg, |Utf8.Encode(password)|)
    ensures JoinWellFormed(cfg, JoinSession(id, password))
  {
  }

  function EncodeNew(cfg: Config, r: NewSessionRequest): (b: seq<byte>)
    ensures |b| == 2 * cfg.usizeWidth + |r.id| + |r.password| + 1
  {
    EncodeCounted(cfg, r.idCount, r.id) + EncodeCounted(cfg, r.count, r.password) + [r.playerLimit]
  }

  function EncodeJoin(cfg: Config, r: JoinSessionRequest): (b: seq<byte>)
    ensures |b| == 2 * cfg.usizeWidth + |r.id| + |r.password|
  {
    EncodeCounted(cfg, r.idCount, r.id) + EncodeCounted(cfg, r.count, r.password)
  }

  /**
   * Reads a `NewSessionRequest`. A successful decode is well formed and
   * consumed exactly the request's encoding.
   */
  function DecodeNew(cfg: Config, s: seq<byte>): (r: Option<(NewSessionRequest, seq<byte>)>)
    ensures r.Some? ==> NewWellFormed(cfg, r.value.0) && EncodeNew(cfg, r.value.0) + r.value.1 == s
  {
    match DecodeCounted(cfg, s)
    case None => None
    case Some((n, id, s1)) =>
      match DecodeCounted(cfg, s1)
      case None => None
      case Some((m, password, s2)) =>
        if s2 == [] then None
        else
          var r := NewSessionRequest(n, id, m, password, s2[0]);
          var a, b := EncodeCounted(cfg, n, id), EncodeCounted(cfg, m, password);
          HeadTail(s2);
          AppendAssoc(b, [s2[0]], s2[1..]);
          AppendAssoc(a, b + [s2[0]], s2[1..]);
          AppendAssoc(a, b, [s2[0]]);
          Some((r, s2[1..]))
  }

  lemma DecodeEncodeNew(cfg: Config, r: NewSessionRequest, rest: seq<byte>)
    requires NewWellFormed(cfg, r)
    ensures DecodeNew(cfg, EncodeNew(cfg, r) + rest) == Some((r, rest))
  {
    var a, b := EncodeCounted(cfg, r.idCount, r.id), EncodeCounted(cfg, r.count, r.password);
    var tail := [r.playerLimit] + rest;
    AppendAssoc(a + b, [r.playerLimit], rest);
    AppendAssoc(a, b, tail);
    DecodeEncodeCounted(cfg, r.id, b + tail);
    DecodeEncodeCounted(cfg, r.password, tail);
    assert tail[0] == r.playerLimit && tail[1..] == rest;
  }

  /**
   * Reads a `JoinSessionRequest`. A successful decode is well formed and
   * consumed exactly the request's encoding.
   */
  function DecodeJoin(cfg: Config, s: seq<byte>): (r: Option<(JoinSessionRequest, seq<byte>)>)
    ensures r.Some? ==> JoinWellFormed(cfg, r.value.0) && EncodeJoin(cfg, r.value.0) + r.value.1 == s
  {
    match DecodeCounted(cfg, s)
    case None => None
    case Some((n, id, s1)) =>
      match DecodeCounted(cfg, s1)
      case None => None
      case Some((m, password, s2)) =>
        AppendAssoc(EncodeCounted(cfg, n, id), EncodeCounted(cfg, m, password), s2);
        Some((JoinSessionRequest(n, id, m, password), s2))
  }

  lemma DecodeEncodeJoin(cfg: Config, r: JoinSessionRequest, rest: seq<byte>)
    requires JoinWellFormed(cfg, r)
    ensures DecodeJoin(cfg, EncodeJoin(cfg, r) + rest) == Some((r, rest))
  {
    var a, b := EncodeCounted(cfg, r.idCount, r.id), EncodeCounted(cfg, r.count, r.password);
    AppendAssoc(a, b, rest);
    DecodeEncodeCounted(cfg, r.id, b + rest);
    DecodeEncodeCounted(cfg, r.password, rest);
  }

  // ---------------------------------------------------------------------
  // Tagged enums: a one-byte variant id, then the variant's fields

  datatype ServerRequest = NewSessionCall(create: NewSessionRequest) | JoinSessionCall(join: JoinSessionRequest)

  const NEW_SESSION_ID: byte := 0x1
  const JOIN_SESSION_ID: byte := 0x2

  predicate RequestWellFormed(cfg: Config, r: ServerRequest)
  {
    match r
    case NewSessionCall(q) => NewWellFormed(cfg, q)
    case JoinSessionCall(q) => JoinWellFormed(cfg, q)
  }

  function EncodeRequest(cfg: Config, r: ServerRequest): (b: seq<byte>)
    ensures b != [] && (b[0] == NEW_SESSION_ID <==> r.NewSessionCall?)
  {
    match r
    case NewSessionCall(q) => [NEW_SESSION_ID] + EncodeNew(cfg, q)
    case JoinSessionCall(q) => [JOIN_SESSION_ID] + EncodeJoin(cfg, q)
  }

  /**
   * Reads a `ServerRequest`: the variant id 0x1 or 0x2 and that variant's
   * body. Any other id, or no byte at all, fails; a success is well formed
   * and consumed exactly the request's encoding.
   */
  function DecodeRequest(cfg: Config, s: seq<byte>): (r: Option<(ServerRequest, seq<byte>)>)
    ensures s == [] || (s[0] != NEW_SESSION_ID && s[0] != JOIN_SESSION_ID) ==> r.None?
    ensures r.Some? ==> RequestWellFormed(cfg, r.value.0) && EncodeRequest(cfg, r.value.0) + r.value.1 == s
  {
    if s == [] then None
    else if s[0] == NEW_SESSION_ID then
      match DecodeNew(cfg, s[1..])
      case None => None
      case Some((q, rest)) =>
        HeadTail(s);
        AppendAssoc([s[0]], EncodeNew(cfg, q), rest);
        Some((NewSessionCall(q), rest))
    else if s[0] == JOIN_SESSION_ID then
      match DecodeJoin(cfg, s[1..])
      case None => None
      case Some((q, rest)) =>
        HeadTail(s);
        AppendAssoc([s[0]], EncodeJoin(cfg, q), rest);
        Some((JoinSessionCall(q), rest))
    else None
  }

  lemma DecodeEncodeRequest(cfg: Config, r: ServerRequest, rest: seq<byte>)
    requires RequestWellFormed(cfg, r)
    ensures DecodeRequest(cfg, EncodeRequest(cfg, r) + rest) == Some((r, rest))
  {
    var s := EncodeRequest(cfg, r) + rest;
    match r
    case NewSessionCall(q) =>
      AppendAssoc([NEW_SESSION_ID], EncodeNew(cfg, q), rest);
      assert s[1..] == EncodeNew(cfg, q) + rest;
      DecodeEncodeNew(cfg, q, rest);
    case JoinSessionCall(q) =>
      AppendAssoc([JOIN_SESSION_ID], EncodeJoin(cfg, q), rest);
      assert s[1..] == EncodeJoin(cfg, q) + rest;
      DecodeEncodeJoin(cfg, q, rest);
  }

  /** The answer a joining client reads from its stream. */
  datatype JoinResponse = Ok | WrongPassword

  const OK_ID: byte := 0x1
  const WRONG_PASSWORD_ID: byte := 0x2

  function EncodeJoinResponse(r: JoinResponse): (b: seq<byte>)
    ensures |b| == 1
    ensures r.Ok? <==> b == [OK_ID]
    ensures r.WrongPassword? <==> b == [WRONG_PASSWORD_ID]
  {
    match r
    case Ok => [OK_ID]
    case WrongPassword => [WRONG_PASSWORD_ID]
  }

  /** Reads the one-byte answer; any byte other than 0x1 and 0x2 fails. */
  function DecodeJoinResponse(s: seq<byte>): (r: Option<(JoinResponse, seq<byte>)>)
    ensures r.Some? <==> s != [] && (s[0] == OK_ID || s[0] == WRONG_PASSWORD_ID)
    ensures r.Some? ==> EncodeJoinResponse(r.value.0) + r.value.1 == s
  {
    if s == [] then None
    else if s[0] == OK_ID then HeadTail(s); Some((Ok, s[1..]))
    else if s[0] == WRONG_PASSWORD_ID then HeadTail(s); Some((WrongPassword, s[1..]))
    else None
  }

  lemma DecodeEncodeJoinResponse(r: JoinResponse, rest: seq<byte>)
    ensures DecodeJoinResponse(EncodeJoinResponse(r) + rest) == Some((r, rest))
  {
    assert (EncodeJoinResponse(r) + rest)[1..] == rest;
  }

  // ---------------------------------------------------------------------
  // Admission, as values

  /** `join_player`'s answer: Ok exactly when the password bytes match. */
  function Verdict(req: JoinSessionRequest, password: seq<byte>): JoinResponse
  {
    if req.password != password then WrongPassword else Ok
  }

  /** The bytes written to the streams of the first `n` requests, one answer each. */
  function Replies(reqs: seq<JoinSessionRequest>, password: seq<byte>, n: nat): seq<seq<byte>>
    requires n <= |reqs|
  {
    if n == 0 then [] else Replies(reqs, password, n - 1) + [EncodeJoinResponse(Verdict(reqs[n - 1], password))]
  }

  /** What the first `n` requests put on the session's response channel: only the refusals. */
  function Rejections(reqs: seq<JoinSessionRequest>, password: seq<byte>, n: nat): seq<(JoinResponse, Option<Player>)>
    requires n <= |reqs|
  {
    if n == 0 then []
    else Rejections(reqs, password, n - 1) + (if Verdict(reqs[n - 1], password) == Ok then [] else [(WrongPassword, None)])
  }

  /** How many of the first `n` requests were admitted. */
  function Admissions(reqs: seq<JoinSessionRequest>, password: seq<byte>, n: nat): nat
    requires n <= |reqs|
  {
    if n == 0 then 0 else Admissions(reqs, password, n - 1) + (if Verdict(reqs[n - 1], password) == Ok then 1 else 0)
  }

  /**
   * Every request gets exactly one answer on its own stream, in order; the
   * refused ones are also reported on the channel, and the rest are admitted.
   */
  lemma {:induction false} RepliesAccounted(reqs: seq<JoinSessionRequest>, password: seq<byte>, n: nat)
    requires n <= |reqs|
    ensures |Replies(reqs, password, n)| == n
    ensures forall i :: 0 <= i < n ==> Replies(reqs, password, n)[i] == EncodeJoinResponse(Verdict(reqs[i], password))
    ensures |Rejections(reqs, password, n)| + Admissions(reqs, password, n) == n
    ensures forall i :: 0 <= i < |Rejections(reqs, password, n)| ==> Rejections(reqs, password, n)[i] == (WrongPassword, None)
  {
    if n > 0 {
      RepliesAccounted(reqs, password, n - 1);
    }
  }

  /** Nobody is admitted without the password, and everybody with it is. */
  lemma {:induction false} AdmissionsBounds(reqs: seq<JoinSessionRequest>, password: seq<byte>, n: nat)
    requires n <= |reqs|
    ensures Admissions(reqs, password, n) == 0 <==> forall i :: 0 <= i < n ==> reqs[i].password != password
    ensures Admissions(reqs, password, n) == n <==> forall i :: 0 <= i < n ==> reqs[i].password == password
  {
    if n > 0 {
      AdmissionsBounds(reqs, password, n - 1);
      assert Admissions(reqs, password, n - 1) <= n - 1 by {
        RepliesAccounted(reqs, password, n - 1);
      }
    }
  }

  /** The roster with the players `ps[k..n]` stored under their ids, in order. */
  function Admit(roster: map<u64, Player>, ps: seq<Player>, k: nat, n: nat): map<u64, Player>
    requires k <= n <= |ps|
  {
    if n == k then roster else Admit(roster, ps, k, n - 1)[ps[n - 1].id := ps[n - 1]]
  }

  /** Admitting adds exactly the admitted ids. */
  lemma {:induction false} AdmitKeys(roster: map<u64, Player>, ps: seq<Player>, k: nat, n: nat)
    requires k <= n <= |ps|
    ensures Admit(roster, ps, k, n).Keys == roster.Keys + (set i | k <= i < n :: ps[i].id)
  {
    if n > k {
      AdmitKeys(roster, ps, k, n - 1);
      assert (set i | k <= i < n :: ps[i].id) == (set i | k <= i < n - 1 :: ps[i].id) + {ps[n - 1].id};
    }
  }

  /** The entry under an admitted id is the last player admitted with that id. */
  lemma {:induction false} AdmitLatest(roster: map<u64, Player>, ps: seq<Player>, k: nat, n: nat, i: nat)
    requires k <= i < n <= |ps|
    requires forall j :: i < j < n ==> ps[j].id != ps[i].id
    ensures ps[i].id in Admit(roster, ps, k, n) && Admit(roster, ps, k, n)[ps[i].id] == ps[i]
  {
    if i < n - 1 {
      AdmitLatest(roster, ps, k, n - 1, i);
    }
  }

  /** An id nobody was admitted with keeps its entry. */
  lemma {:induction false} AdmitUntouched(roster: map<u64, Player>, ps: seq<Player>, k: nat, n: nat, key: u64)
    requires k <= n <= |ps| && key in roster
    requires forall i :: k <= i < n ==> ps[i].id != key
    ensures key in Admit(roster, ps, k, n) && Admit(roster, ps, k, n)[key] == roster[key]
  {
    if n > k {
      AdmitUntouched(roster, ps, k, n - 1, key);
    }
  }

  /** Only `ps[..n]` matters to an admission. */
  lemma {:induction false} AdmitPrefix(roster: map<u64, Player>, ps: seq<Player>, qs: seq<Player>, k: nat, n: nat)
    requires k <= n <= |ps| && n <= |qs| && forall i :: k <= i < n ==> ps[i] == qs[i]
    ensures Admit(roster, ps, k, n) == Admit(roster, qs, k, n)
  {
    if n > k {
      AdmitPrefix(roster, ps, qs, k, n - 1);
    }
  }

  /** The session's observable output: stream writes, channel messages and spawned tasks. */
  datatype Log = Log(written: seq<seq<byte>>, responses: seq<(JoinResponse, Option<Player>)>, tasks: seq<Player>)

  /**
   * One `join_player` call on `req`: the answer is written to the request's
   * stream; a refusal is also sent on the channel and leaves the roster
   * and the collider arena alone; an admission spawns a task for a player
   * made from the template, stores that player in the roster and inserts
   * its convex-hull collider under a handle the arena did not hold.
   */
  ghost predicate JoinStep(req: JoinSessionRequest, password: seq<byte>, template: Option<Player>,
                           before: Log, roster: map<u64, Player>, cols: map<ColliderHandle, Collider>,
                           after: Log, roster': map<u64, Player>, cols': map<ColliderHandle, Collider>)
  {
    && after.written == before.written + [EncodeJoinResponse(Verdict(req, password))]
    && if Verdict(req, password) == WrongPassword then
         && after.responses == before.responses + [(WrongPassword, None)]
         && after.tasks == before.tasks
         && roster' == roster
         && cols' == cols
       else
         && after.responses == before.responses
         && |after.tasks| == |before.tasks| + 1
         && var p := after.tasks[|before.tasks|];
         && after.tasks == before.tasks + [p]
         && template.Some? && SpawnedFrom(p, template.value)
         && roster' == roster[p.id := p]
         && p.vertices.Some? && p.collider !in cols
         && cols' == cols[p.collider := CreateCollider(CONVEX, F32_ZERO, F32_ONE, p.vertices)]
  }

  /** The collider handles of the players admitted from index `k` on. */
  ghost function SpawnHandles(ps: seq<Player>, k: nat): (hs: seq<ColliderHandle>)
    requires k <= |ps|
    ensures |hs| == |ps| - k
  {
    seq(|ps| - k, i requires 0 <= i < |ps| - k => ps[k + i].collider)
  }

  /** The convex-hull colliders `new_player` builds for those players. */
  ghost function SpawnColliders(ps: seq<Player>, k: nat): (cs: seq<Collider>)
    requires k <= |ps| && forall i :: k <= i < |ps| ==> ps[i].vertices.Some?
    ensures |cs| == |ps| - k
  {
    seq(|ps| - k, i requires 0 <= i < |ps| - k => CreateCollider(CONVEX, F32_ZERO, F32_ONE, ps[k + i].vertices))
  }

  /**
   * The collider arena after the admissions ps[k..]: `cols0` with each
   * admitted player's handle bound, in order, to its convex hull, every
   * handle fresh when it was issued (what that means is `InsertFreshMeaning`).
   */
  ghost predicate Armed(cols0: map<ColliderHandle, Collider>, ps: seq<Player>, k: nat, cols: map<ColliderHandle, Collider>)
  {
    && k <= |ps| && (forall i :: k <= i < |ps| ==> ps[i].vertices.Some?)
    && InsertFresh(cols0, SpawnHandles(ps, k), SpawnColliders(ps, k), |ps| - k) == Some(cols)
  }

  /** One more admission under a handle the arena does not hold keeps the arena armed. */
  lemma ArmedSnoc(cols0: map<ColliderHandle, Collider>, ps: seq<Player>, k: nat, cols: map<ColliderHandle, Collider>,
                  p: Player)
    requires Armed(cols0, ps, k, cols) && p.vertices.Some? && p.collider !in cols
    ensures Armed(cols0, ps + [p], k, cols[p.collider := CreateCollider(CONVEX, F32_ZERO, F32_ONE, p.vertices)])
  {
    var c := CreateCollider(CONVEX, F32_ZERO, F32_ONE, p.vertices);
    assert SpawnHandles(ps + [p], k) == SpawnHandles(ps, k) + [p.collider] by {
      forall i | 0 <= i < |ps| - k ensures SpawnHandles(ps + [p], k)[i] == SpawnHandles(ps, k)[i] {
        assert (ps + [p])[k + i] == ps[k + i];
      }
    }
    assert SpawnColliders(ps + [p], k) == SpawnColliders(ps, k) + [c] by {
      forall i | 0 <= i < |ps| - k ensures SpawnColliders(ps + [p], k)[i] == SpawnColliders(ps, k)[i] {
        assert (ps + [p])[k + i] == ps[k + i];
      }
    }
    InsertFreshSnoc(cols0, SpawnHandles(ps, k), SpawnColliders(ps, k), cols, p.collider, c);
  }

  /**
   * An armed arena keeps every collider it had and gains exactly the
   * admitted players' handles, none of which it held before and no two of
   * which are equal.
   */
  lemma ArmedKeys(cols0: map<ColliderHandle, Collider>, ps: seq<Player>, k: nat, cols: map<ColliderHandle, Collider>)
    requires Armed(cols0, ps, k, cols)
    ensures cols.Keys == cols0.Keys + (set i | k <= i < |ps| :: ps[i].collider)
    ensures forall h :: h in cols0 ==> cols[h] == cols0[h]
    ensures forall i :: k <= i < |ps| ==> ps[i].collider !in cols0
    ensures forall i, j :: k <= i < j < |ps| ==> ps[i].collider != ps[j].collider
  {
    var hs := SpawnHandles(ps, k);
    InsertFreshMeaning(cols0, hs, SpawnColliders(ps, k), |ps| - k, cols);
    forall i | k <= i < |ps| ensures hs[i - k] == ps[i].collider {
    }
    assert (set i | 0 <= i < |ps| - k :: hs[i]) == (set i | k <= i < |ps| :: ps[i].collider) by {
      forall i | k <= i < |ps| ensures ps[i].collider in (set j | 0 <= j < |ps| - k :: hs[j]) {
        assert hs[i - k] == ps[i].collider;
      }
    }
  }

  /** The first `n` requests have been answered, from `start` on. */
  ghost predicate Answered(reqs: seq<JoinSessionRequest>, password: seq<byte>, template: Option<Player>, n: nat,
                           start: Log, log: Log)
    requires n <= |reqs|
  {
    && log.written == start.written + Replies(reqs, password, n)
    && log.responses == start.responses + Rejections(reqs, password, n)
    && start.tasks <= log.tasks
    && |log.tasks| == |start.tasks| + Admissions(reqs, password, n)
    && forall i :: |start.tasks| <= i < |log.tasks| ==> template.Some? && SpawnedFrom(log.tasks[i], template.value)
  }

  /** `Answered` together with the roster and the collider arena that the admissions produced. */
  ghost predicate Joined(reqs: seq<JoinSessionRequest>, password: seq<byte>, template: Option<Player>, n: nat,
                         start: Log, roster0: map<u64, Player>, cols0: map<ColliderHandle, Collider>,
                         log: Log, roster: map<u64, Player>, cols: map<ColliderHandle, Collider>)
    requires n <= |reqs|
  {
    && Answered(reqs, password, template, n, start, log)
    && roster == Admit(roster0, log.tasks, |start.tasks|, |log.tasks|)
    && Armed(cols0, log.tasks, |start.tasks|, cols)
  }

  lemma JoinedEmpty(reqs: seq<JoinSessionRequest>, password: seq<byte>, template: Option<Player>,
                    start: Log, roster0: map<u64, Player>, cols0: map<ColliderHandle, Collider>)
    ensures Joined(reqs, password, template, 0, start, roster0, cols0, start, roster0, cols0)
  {
  }

  lemma JoinedSnoc(reqs: seq<JoinSessionRequest>, password: seq<byte>, template: Option<Player>, n: nat,
                   start: Log, roster0: map<u64, Player>, cols0: map<ColliderHandle, Collider>,
                   mid: Log, roster: map<u64, Player>, cols: map<ColliderHandle, Collider>,
                   after: Log, roster': map<u64, Player>, cols': map<ColliderHandle, Collider>)
    requires n < |reqs|
    requires Joined(reqs, password, template, n, start, roster0, cols0, mid, roster, cols)
    requires JoinStep(reqs[n], password, template, mid, roster, cols, after, roster', cols')
    ensures Joined(reqs, password, template, n + 1, start, roster0, cols0, after, roster', cols')
  {
    var k := |start.tasks|;
    if Verdict(reqs[n], password) == Ok {
      var p := after.tasks[|mid.tasks|];
      AdmitPrefix(roster0, mid.tasks, after.tasks, k, |mid.tasks|);
      assert Admit(roster0, after.tasks, k, |after.tasks|) == roster[p.id := p];
      assert start.tasks <= after.tasks by {
        assert after.tasks[..|mid.tasks|] == mid.tasks;
      }
      ArmedSnoc(cols0, mid.tasks, k, cols, p);
    }
  }

  /**
   * A whole session tick on the roster: the previous players, the admitted
   * players and the players whose updates were queued are exactly the
   * roster's keys afterwards.
   */
  lemma TickKeys(phys: Physics, roster0: map<u64, Player>, ps: seq<Player>, k: nat, queue: seq<Player>,
                 players: map<u64, Player>)
    requires k <= |ps|
    requires players == RosterAfter(phys, Admit(roster0, ps, k, |ps|), queue, |queue|)
    ensures players.Keys == roster0.Keys + (set i | k <= i < |ps| :: ps[i].id) + Ids(queue, |queue|)
  {
    AdmitKeys(roster0, ps, k, |ps|);
    RosterAfterKeys(phys, Admit(roster0, ps, k, |ps|), queue, |queue|);
  }

  // ---------------------------------------------------------------------
  // The session

  datatype Result<T> = Success(value: T) | Failure(error: Reason)

  class Session {
    /** The session's id and password, as validated UTF-8 bytes. */
    var id: seq<byte>
    var password: seq<byte>
    var playerLimit: byte
    var gameManager: GameManager
    /** Join requests waiting on `receiver`, oldest first; each came with its own stream. */
    var joinQueue: seq<JoinSessionRequest>
    /** Worlds waiting on `manager_receiver`, oldest first. */
    var managerQueue: seq<GameManager>
    /** What was sent on `sender`, oldest first. */
    var responses: seq<(JoinResponse, Option<Player>)>
    /** The bytes written to each handled request's stream, in the order the requests were handled. */
    var written: seq<seq<byte>>
    /** The players handed to spawned player tasks, in order. */
    var tasks: seq<Player>

    function Logged(): Log
      reads this
    {
      Log(written, responses, tasks)
    }

    /** The world `update` runs: a waiting replacement if there is one, else the current one. */
    function Next(): GameManager
      reads this
    {
      if managerQueue != [] then managerQueue[0] else gameManager
    }

    constructor (id: seq<byte>, password: seq<byte>, playerLimit: byte, gameManager: GameManager,
                 joins: seq<JoinSessionRequest>)
      ensures this.id == id && this.password == password && this.playerLimit == playerLimit
      ensures this.gameManager == gameManager && joinQueue == joins && managerQueue == []
      ensures responses == [] && written == [] && tasks == []
    {
      this.id := id;
      this.password := password;
      this.playerLimit := playerLimit;
      this.gameManager := gameManager;
      joinQueue := joins;
      managerQueue := [];
      responses := [];
      written := [];
      tasks := [];
    }

    /**
     * `join_player`: takes the oldest request, answers it on its stream and
     * either refuses it on the channel or admits a new player from the
     * world's template and spawns its task.
     */
    method JoinPlayer()
      requires joinQueue != [] && gameManager.Valid()
      requires joinQueue[0].password == password ==> gameManager.defaultPlayer.Some?
      modifies this, gameManager
      ensures joinQueue == old(joinQueue)[1..]
      ensures id == old(id) && password == old(password) && playerLimit == old(playerLimit)
      ensures gameManager == old(gameManager) && managerQueue == old(managerQueue)
      ensures gameManager.Valid() && (old(gameManager.Attached()) ==> gameManager.Attached())
      ensures JoinStep(old(joinQueue[0]), password, old(gameManager.defaultPlayer),
                       old(Logged()), old(gameManager.players), old(gameManager.colliders),
                       Logged(), gameManager.players, gameManager.colliders)
      ensures gameManager.objects == old(gameManager.objects) && gameManager.networkObjects == old(gameManager.networkObjects)
      ensures gameManager.bodies == old(gameManager.bodies) && gameManager.defaultPlayer == old(gameManager.defaultPlayer)
      ensures gameManager.dt == old(gameManager.dt) && gameManager.inbox == old(gameManager.inbox)
      ensures gameManager.outbox == old(gameManager.outbox)
    {
      var request := joinQueue[0];
      joinQueue := joinQueue[1..];
      if request.password != password {
        written := written + [EncodeJoinResponse(WrongPassword)];
        responses := responses + [(WrongPassword, None)];
        return;
      }
      var player := gameManager.NewPlayer();
      written := written + [EncodeJoinResponse(Ok)];
      tasks := tasks + [player];
    }

    /**
     * `update`: switch to a waiting replacement world, if any; answer every
     * waiting join request; then run one world tick. The tick sees the
     * roster with the admitted players in it.
     */
    method Update(phys: Physics)
      requires Next().Valid() && Next().Attached()
      requires forall k :: 0 <= k < |joinQueue| && joinQueue[k].password == password ==> Next().defaultPlayer.Some?
      modifies this, Next()
      ensures gameManager == old(Next())
      ensures managerQueue == if old(managerQueue) == [] then [] else old(managerQueue)[1..]
      ensures joinQueue == [] && id == old(id) && password == old(password) && playerLimit == old(playerLimit)
      ensures Answered(old(joinQueue), password, old(Next().defaultPlayer), |old(joinQueue)|, old(Logged()), Logged())
      ensures gameManager.Valid() && gameManager.Attached()
      ensures |gameManager.networkObjects| == |old(Next().networkObjects)|
      ensures forall i :: 0 <= i < |gameManager.networkObjects| ==>
                gameManager.networkObjects[i] == Refreshed(phys, old(Next().networkObjects)[i], gameManager.objects)
      ensures gameManager.inbox == [] && old(Next().outbox) <= gameManager.outbox
      ensures |gameManager.outbox| == |old(Next().outbox)| + |old(Next().inbox)|
      ensures Drained(phys, gameManager.networkObjects, Admit(old(Next().players), tasks, |old(tasks)|, |tasks|),
                      old(Next().inbox), gameManager.players, gameManager.outbox[|old(Next().outbox)|..])
      ensures Armed(old(Next().colliders), tasks, |old(tasks)|, gameManager.colliders)
      ensures gameManager.objects == old(Next().objects) && gameManager.bodies == old(Next().bodies)
      ensures gameManager.defaultPlayer == old(Next().defaultPlayer) && gameManager.dt == old(Next().dt)
    {
      if managerQueue != [] {
        gameManager := managerQueue[0];
        managerQueue := managerQueue[1..];
      }
      ghost var world := gameManager;
      ghost var reqs := joinQueue;
      ghost var template := gameManager.defaultPlayer;
      ghost var roster0 := gameManager.players;
      ghost var cols0 := gameManager.colliders;
      ghost var start := Logged();
      ghost var n := 0;
      JoinedEmpty(reqs, password, template, start, roster0, cols0);
      while joinQueue != []
        invariant n <= |reqs| && joinQueue == reqs[n..]
        invariant gameManager == world && password == old(password) && id == old(id) && playerLimit == old(playerLimit)
        invariant managerQueue == if old(managerQueue) == [] then [] else old(managerQueue)[1..]
        invariant world.Valid() && world.Attached()
        invariant world.defaultPlayer == template
        invariant forall k :: 0 <= k < |joinQueue| && joinQueue[k].password == password ==> template.Some?
        invariant Joined(reqs, password, template, n, start, roster0, cols0, Logged(), world.players, world.colliders)
        invariant world.objects == old(Next().objects) && world.networkObjects == old(Next().networkObjects)
        invariant world.bodies == old(Next().bodies) && world.dt == old(Next().dt)
        invariant world.inbox == old(Next().inbox) && world.outbox == old(Next().outbox)
        decreases |joinQueue|
      {
        ghost var mid := Logged();
        ghost var roster := world.players;
        ghost var cols := world.colliders;
        JoinPlayer();
        JoinedSnoc(reqs, password, template, n, start, roster0, cols0, mid, roster, cols,
                   Logged(), world.players, world.colliders);
        n := n + 1;
      }
      gameManager.Update(phys);
    }
  }

  /**
   * `Session::new`: a session when the password is valid UTF-8, and
   * `InvalidPassword` otherwise. The id must then be valid UTF-8 too. The
   * new session takes over the join queue and the world and has sent nothing.
   */
  method Open(request: NewSessionRequest, joins: seq<JoinSessionRequest>, gameManager: GameManager)
    returns (r: Result<Session>)
    requires Utf8.IsUtf8(request.password) ==> Utf8.IsUtf8(request.id)
    ensures r.Failure? <==> !Utf8.IsUtf8(request.password)
    ensures r.Failure? ==> r.error == InvalidPassword
    ensures r.Success? ==> && fresh(r.value)
                           && r.value.id == request.id && r.value.password == request.password
                           && r.value.playerLimit == request.playerLimit && r.value.gameManager == gameManager
                           && r.value.joinQueue == joins && r.value.managerQueue == []
                           && r.value.Logged() == Log([], [], [])
  {
    if Utf8.IsUtf8(request.password) {
      var session := new Session(request.id, request.password, request.playerLimit, gameManager, joins);
      r := Success(session);
    } else {
      r := Failure(InvalidPassword);
    }
  }
}
