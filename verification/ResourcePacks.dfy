/** The resource packs of a play session: the index that answers from a client are looked up in,
    protocol/limbo/play_events.go. */
module ResourcePacks {
  import opened Bits
  import opened Wrappers
  import Wire

  type Text = seq<byte>

  datatype Pack = Pack(id: Text, url: Text, hash: Text)

  datatype Packs = Packs(live: map<Text, Pack>, index: map<Text, Text>, last: Text)

  const NO_PACKS := Packs(map[], map[], [])

  /** How a protocol version names the pack that is answered for. */
  datatype Naming = ByHash | ByUUID | Unnamed

  datatype Status =
    | SuccessfullyLoaded | Declined | FailedDownload | Accepted | Downloaded | InvalidURL | FailedReload | Discarded
    | Unknown(code: int32)

  datatype Response =
    Response(player: Text, id: Text, pack: Option<Pack>, status: Status, code: int32, protocol: int32)

  /** The session a response belongs to. */
  datatype Session = Session(player: Text, protocol: int32, naming: Naming)

  datatype Error = Malformed(wire: Wire.Error) | TrailingBytes

  function StatusOf(code: int32): Status {
    match code
    case 0 => SuccessfullyLoaded
    case 1 => Declined
    case 2 => FailedDownload
    case 3 => Accepted
    case 4 => Downloaded
    case 5 => InvalidURL
    case 6 => FailedReload
    case 7 => Discarded
    case _ => Unknown(code)
  }

  // ----- the two updates

  /** What a client may name a pack by: its UUID, and its hash if it has one. */
  function Names(uuid: Text -> Text, p: Pack): set<Text> {
    {uuid(p.id)} + if p.hash != [] then {p.hash} else {}
  }

  function Remembered(uuid: Text -> Text, s: Packs, p: Pack): Packs {
    var byUUID := s.index[uuid(p.id) := p.id];
    Packs(s.live[p.id := p], if p.hash != [] then byUUID[p.hash := p.id] else byUUID, p.id)
  }

  /** The names deleted with a pack. */
  function ForgottenNames(uuid: Text -> Text, s: Packs, id: Text): set<Text> {
    {uuid(id)} + if id in s.live && s.live[id].hash != [] then {s.live[id].hash} else {}
  }

  /** Any of the packs that remain may become the last. */
  predicate Forgotten(uuid: Text -> Text, s: Packs, id: Text, next: Packs) {
    && next.live == s.live - {id}
    && next.index == s.index - ForgottenNames(uuid, s, id)
    && (if next.live == map[] then next.last == [] else next.last in next.live)
  }

  // ----- the session

  class PlaySession {
    const uuid: Text -> Text
    const uuidText: seq<byte> -> Text
    const session: Session
    var resourcePacks: map<Text, Pack>
    var protocolIDs: map<Text, Text>
    var lastID: Text

    ghost function View(): Packs
      reads this
    {
      Packs(resourcePacks, protocolIDs, lastID)
    }

    constructor (session: Session, uuid: Text -> Text, uuidText: seq<byte> -> Text)
      ensures View() == NO_PACKS && this.session == session && this.uuid == uuid && this.uuidText == uuidText
    {
      this.session, this.uuid, this.uuidText := session, uuid, uuidText;
      resourcePacks, protocolIDs, lastID := map[], map[], [];
    }

    /** Nothing is remembered of a pack that could not be sent. */
    method AddResourcePack(p: Pack, sent: bool) returns (ok: bool)
      modifies this
      ensures ok == sent && View() == if sent then Remembered(uuid, old(View()), p) else old(View())
    {
      if !sent {
        return false;
      }
      Remember(p);
      return true;
    }

    method RemoveResourcePack(id: Text, sent: bool) returns (ok: bool)
      modifies this
      ensures ok == sent && (if sent then Forgotten(uuid, old(View()), id, View()) else View() == old(View()))
    {
      if !sent {
        return false;
      }
      Forget(id);
      return true;
    }

    method Remember(p: Pack)
      modifies this
      ensures View() == Remembered(uuid, old(View()), p)
    {
      resourcePacks := resourcePacks[p.id := p];
      protocolIDs := protocolIDs[uuid(p.id) := p.id];
      if p.hash != [] {
        protocolIDs := protocolIDs[p.hash := p.id];
      }
      lastID := p.id;
    }

    method Forget(id: Text)
      modifies this
      ensures Forgotten(uuid, old(View()), id, View())
    {
      ghost var before := View();
      var pack := if id in resourcePacks then Some(resourcePacks[id]) else None;
      resourcePacks := resourcePacks - {id};
      protocolIDs := protocolIDs - {uuid(id)};
      if pack.Some? && pack.value.hash != [] {
        protocolIDs := protocolIDs - {pack.value.hash};
      }
      assert protocolIDs == before.index - ForgottenNames(uuid, before, id);
      lastID := [];
      if resourcePacks != map[] {
        assert resourcePacks.Keys != {};
        var remaining :| remaining in resourcePacks;
        lastID := remaining;
      }
    }

    method ReadResourcePackResponse(data: seq<byte>) returns (r: Result<Response, Error>)
      ensures r == Answer(session, uuidText, View(), data)
    {
      var reader := new Wire.Reader(data);
      var protocolID: Text := [];
      match session.naming {
        case ByHash =>
          var hash := Wire.ReadString(reader, 40);
          if hash.Err? {
            return Err(Malformed(hash.error));
          }
          protocolID := hash.value;
        case ByUUID =>
          var raw := reader.ReadFull(16);
          if raw.Err? {
            return Err(Malformed(raw.error));
          }
          protocolID := uuidText(raw.value);
        case Unnamed =>
      }
      var status := Wire.ReadVarInt(reader);
      if status.Err? {
        return Err(Malformed(status.error));
      }
      if reader.rest != [] {
        return Err(TrailingBytes);
      }
      var id := lastID;
      if protocolID != [] {
        if protocolID in protocolIDs {
          id := protocolIDs[protocolID];
        } else {
          id := protocolID;
        }
      }
      var pack := if id in resourcePacks then Some(resourcePacks[id]) else None;
      return Ok(Response(session.player, id, pack, StatusOf(status.value), status.value, session.protocol));
    }
  }

  // ----- answers

  function NamePart(naming: Naming, uuidText: seq<byte> -> Text, data: seq<byte>)
    : Result<(Text, seq<byte>), Error>
  {
    match naming
    case ByHash =>
      (match Wire.DecodeString(data, 40)
       case Ok(parsed) => Ok(parsed)
       case Err(e) => Err(Malformed(e)))
    case ByUUID =>
      if |data| < 16 then Err(Malformed(Wire.UnexpectedEnd)) else Ok((uuidText(data[..16]), data[16..]))
    case Unnamed => Ok(([], data))
  }

  function Answer(session: Session, uuidText: seq<byte> -> Text, s: Packs, data: seq<byte>): Result<Response, Error> {
    var (name, rest) :- NamePart(session.naming, uuidText, data);
    match Wire.DecodeVarInt(rest)
    case Err(e) => Err(Malformed(e))
    case Ok((status, end)) =>
      if end != [] then Err(TrailingBytes)
      else
        var id := PackNamed(s, name);
        var pack := if id in s.live then Some(s.live[id]) else None;
        Ok(Response(session.player, id, pack, StatusOf(Int32(status)), Int32(status), session.protocol))
  }

  function PackNamed(s: Packs, name: Text): Text {
    if name == [] then s.last
    else if name in s.index then s.index[name]
    else name
  }

  // ----- the index agrees with the packs

  ghost predicate Agrees(uuid: Text -> Text, s: Packs) {
    && (forall id | id in s.live :: s.live[id].id == id && id != [])
    && (forall id | id in s.live :: Found(uuid, s, s.live[id]))
    && (forall k | k in s.index :: s.index[k] in s.live && k in Names(uuid, s.live[s.index[k]]))
    && (s.last == [] <==> s.live == map[])
    && (s.last != [] ==> s.last in s.live)
  }

  ghost predicate Found(uuid: Text -> Text, s: Packs, p: Pack) {
    forall k | k in Names(uuid, p) :: k in s.index && s.index[k] == p.id
  }

  /** What an added pack must satisfy: an id, no name in common with another live pack, and no name
      less than the pack it replaces. */
  ghost predicate MayAdd(uuid: Text -> Text, s: Packs, p: Pack) {
    && p.id != []
    && (forall id | id in s.live && id != p.id :: Names(uuid, p) !! Names(uuid, s.live[id]))
    && (p.id in s.live ==> Names(uuid, s.live[p.id]) <= Names(uuid, p))
  }

  /** A removed pack is live, or its UUID names none. */
  ghost predicate MayRemove(uuid: Text -> Text, s: Packs, id: Text) {
    id in s.live || uuid(id) !in s.index
  }

  /** Adding keeps the index in agreement exactly then. */
  lemma RememberAgrees(uuid: Text -> Text, s: Packs, p: Pack)
    requires Agrees(uuid, s)
    ensures Agrees(uuid, Remembered(uuid, s, p)) <==> MayAdd(uuid, s, p)
  {
    if MayAdd(uuid, s, p) {
      RememberKeeps(uuid, s, p);
    }
    if Agrees(uuid, Remembered(uuid, s, p)) {
      RememberNeeds(uuid, s, p);
    }
  }

  lemma IndexRemembered(uuid: Text -> Text, s: Packs, p: Pack)
    ensures var next := Remembered(uuid, s, p);
      && next.live == s.live[p.id := p] && next.last == p.id
      && (forall k :: k in next.index <==> k in s.index || k in Names(uuid, p))
      && (forall k | k in next.index :: next.index[k] == if k in Names(uuid, p) then p.id else s.index[k])
  {}

  lemma RememberKeeps(uuid: Text -> Text, s: Packs, p: Pack)
    requires Agrees(uuid, s) && MayAdd(uuid, s, p)
    ensures Agrees(uuid, Remembered(uuid, s, p))
  {
    IndexRemembered(uuid, s, p);
    hide Names, Remembered;
    var next := Remembered(uuid, s, p);
    assert p.id in next.live;
    forall id | id in next.live
      ensures Found(uuid, next, next.live[id])
    {
      if id != p.id {
        assert Found(uuid, s, s.live[id]);
      }
    }
    forall k | k in next.index
      ensures next.index[k] in next.live && k in Names(uuid, next.live[next.index[k]])
    {}
  }

  lemma RememberNeeds(uuid: Text -> Text, s: Packs, p: Pack)
    requires Agrees(uuid, s) && Agrees(uuid, Remembered(uuid, s, p))
    ensures MayAdd(uuid, s, p)
  {
    IndexRemembered(uuid, s, p);
    hide Names, Remembered;
    var next := Remembered(uuid, s, p);
    assert p.id in next.live;
    forall id | id in s.live && id != p.id
      ensures Names(uuid, p) !! Names(uuid, s.live[id])
    {
      assert Found(uuid, next, next.live[id]);
    }
    if p.id in s.live {
      forall k | k in Names(uuid, s.live[p.id])
        ensures k in Names(uuid, p)
      {
        assert Found(uuid, s, s.live[p.id]);
        assert k in next.index && next.index[k] == p.id;
      }
    }
  }

  /** Removing does exactly then. */
  lemma ForgetAgrees(uuid: Text -> Text, s: Packs, id: Text, next: Packs)
    requires Agrees(uuid, s) && Forgotten(uuid, s, id, next)
    ensures Agrees(uuid, next) <==> MayRemove(uuid, s, id)
  {
    if !MayRemove(uuid, s, id) {
      var other := s.index[uuid(id)];
      assert other in next.live && s.live[other].id == other && uuid(id) in Names(uuid, next.live[other]);
      assert !Found(uuid, next, next.live[other]);
    } else {
      if id in s.live {
        assert ForgottenNames(uuid, s, id) == Names(uuid, s.live[id]);
      }
      ForgetKeeps(uuid, s, id, next);
    }
  }

  lemma ForgetKeeps(uuid: Text -> Text, s: Packs, id: Text, next: Packs)
    requires Agrees(uuid, s) && Forgotten(uuid, s, id, next) && MayRemove(uuid, s, id)
    ensures Agrees(uuid, next)
  {
    hide Names;
    NamesGone(uuid, s, id);
    forall other | other in next.live
      ensures Found(uuid, next, next.live[other])
    {
      assert Found(uuid, s, s.live[other]);
      assert forall k | k in Names(uuid, s.live[other]) :: k in s.index && s.index[k] == other;
    }
    forall k | k in next.index
      ensures next.index[k] in next.live && k in Names(uuid, next.live[next.index[k]])
    {
      assert s.index[k] in s.live;
    }
  }

  /** Of the index, exactly the names of the removed pack go. */
  lemma NamesGone(uuid: Text -> Text, s: Packs, id: Text)
    requires Agrees(uuid, s) && MayRemove(uuid, s, id)
    ensures forall k | k in s.index :: k in ForgottenNames(uuid, s, id) <==> s.index[k] == id
  {
    if id in s.live {
      assert ForgottenNames(uuid, s, id) == Names(uuid, s.live[id]);
      assert Found(uuid, s, s.live[id]);
    }
  }

  // ----- whole runs

  datatype Update = Add(p: Pack) | Remove(id: Text)

  /** One of the worlds a run can lead to, updates that fail to be sent left out. */
  ghost predicate After(uuid: Text -> Text, updates: seq<Update>, states: seq<Packs>) {
    && |states| == |updates| + 1
    && states[0] == NO_PACKS
    && forall i | 0 <= i < |updates| :: Updated(uuid, states[i], updates[i], states[i + 1])
  }

  ghost predicate Updated(uuid: Text -> Text, s: Packs, u: Update, next: Packs) {
    match u
    case Add(p) => next == Remembered(uuid, s, p)
    case Remove(id) => Forgotten(uuid, s, id, next)
  }

  ghost predicate May(uuid: Text -> Text, s: Packs, u: Update) {
    match u
    case Add(p) => MayAdd(uuid, s, p)
    case Remove(id) => MayRemove(uuid, s, id)
  }

  /** The index agrees all along a run exactly when each of its updates is one that may be made. */
  lemma {:induction false} RunAgrees(uuid: Text -> Text, updates: seq<Update>, states: seq<Packs>)
    requires After(uuid, updates, states)
    ensures (forall s | s in states :: Agrees(uuid, s))
        <==> (forall i | 0 <= i < |updates| :: May(uuid, states[i], updates[i]))
    decreases |updates|
  {
    hide Agrees, MayAdd, MayRemove, Remembered, Forgotten;
    var n := |updates|;
    if n == 0 {
      StartAgrees(uuid);
    } else {
      var u, s, next := updates[n - 1], states[n - 1], states[n];
      assert Updated(uuid, s, u, next);
      RunAgrees(uuid, updates[..n - 1], states[..n]);
      assert states == states[..n] + [next];
      assert s == states[..n][n - 1] && states[..n][n - 1] in states[..n];
      assert forall i | 0 <= i < n - 1 :: states[..n][i] == states[i] && updates[..n - 1][i] == updates[i];
      if Agrees(uuid, s) {
        match u {
          case Add(p) => RememberAgrees(uuid, s, p);
          case Remove(id) => ForgetAgrees(uuid, s, id, next);
        }
      }
    }
  }

  lemma StartAgrees(uuid: Text -> Text)
    ensures Agrees(uuid, NO_PACKS)
  {}

  /** When no two of the ids in use share a UUID or a hash and each id keeps one hash, the index agrees
      all along. */
  lemma {:induction false} DistinctNamesAgree(uuid: Text -> Text, hash: Text -> Text, ids: set<Text>,
                                              updates: seq<Update>, states: seq<Packs>)
    requires After(uuid, updates, states)
    requires Distinct(uuid, hash, ids)
    requires forall i | 0 <= i < |updates| :: Uses(hash, ids, updates[i])
    ensures forall s | s in states :: Agrees(uuid, s) && HashesAre(hash, ids, s)
    decreases |updates|
  {
    hide Agrees, MayAdd, MayRemove, Remembered, Forgotten, Distinct;
    var n := |updates|;
    if n == 0 {
      StartAgrees(uuid);
    } else {
      var u, s, next := updates[n - 1], states[n - 1], states[n];
      assert Updated(uuid, s, u, next);
      DistinctNamesAgree(uuid, hash, ids, updates[..n - 1], states[..n]);
      assert states == states[..n] + [next];
      assert s == states[..n][n - 1] && states[..n][n - 1] in states[..n];
      DistinctMay(uuid, hash, ids, s, u);
      match u {
        case Add(p) => RememberAgrees(uuid, s, p);
        case Remove(id) => ForgetAgrees(uuid, s, id, next);
      }
      DistinctNext(uuid, hash, ids, s, u, next);
    }
  }

  predicate Uses(hash: Text -> Text, ids: set<Text>, u: Update) {
    match u
    case Add(p) => p.id in ids && p.id != [] && p.hash == hash(p.id)
    case Remove(id) => id in ids
  }

  ghost predicate HashesAre(hash: Text -> Text, ids: set<Text>, s: Packs) {
    forall id | id in s.live :: id in ids && s.live[id].hash == hash(id)
  }

  ghost predicate Distinct(uuid: Text -> Text, hash: Text -> Text, ids: set<Text>) {
    && (forall a, b | a in ids && b in ids && uuid(a) == uuid(b) :: a == b)
    && (forall a, b | a in ids && b in ids && hash(a) == hash(b) != [] :: a == b)
    && (forall a, b | a in ids && b in ids && uuid(a) == hash(b) :: a == b)
  }

  lemma DistinctMay(uuid: Text -> Text, hash: Text -> Text, ids: set<Text>, s: Packs, u: Update)
    requires Distinct(uuid, hash, ids) && Agrees(uuid, s) && HashesAre(hash, ids, s)
    requires Uses(hash, ids, u)
    ensures May(uuid, s, u)
  {
    match u
    case Add(p) => DistinctMayAdd(uuid, hash, ids, s, p);
    case Remove(id) =>
      if uuid(id) in s.index {
        var named := s.index[uuid(id)];
        assert named in s.live && uuid(id) in Names(uuid, s.live[named]);
        assert named == id;
      }
  }

  lemma DistinctMayAdd(uuid: Text -> Text, hash: Text -> Text, ids: set<Text>, s: Packs, p: Pack)
    requires Distinct(uuid, hash, ids) && Agrees(uuid, s) && HashesAre(hash, ids, s)
    requires p.id in ids && p.id != [] && p.hash == hash(p.id)
    ensures MayAdd(uuid, s, p)
  {
    hide Found;
    forall id | id in s.live && id != p.id
      ensures Names(uuid, p) !! Names(uuid, s.live[id])
    {
      DistinctNames(uuid, hash, ids, p, s.live[id]);
    }
  }

  lemma DistinctNames(uuid: Text -> Text, hash: Text -> Text, ids: set<Text>, p: Pack, q: Pack)
    requires Distinct(uuid, hash, ids) && p.id in ids && q.id in ids && p.id != q.id
    requires p.hash == hash(p.id) && q.hash == hash(q.id)
    ensures Names(uuid, p) !! Names(uuid, q)
  {}

  lemma DistinctNext(uuid: Text -> Text, hash: Text -> Text, ids: set<Text>, s: Packs, u: Update, next: Packs)
    requires HashesAre(hash, ids, s) && Updated(uuid, s, u, next)
    requires Uses(hash, ids, u)
    ensures HashesAre(hash, ids, next)
  {}

  // ----- what a client's answer finds

  /** Bytes a client answers with. */
  function AnswerBytes(naming: Naming, name: Text, status: int32): seq<byte> {
    match naming
    case ByHash => Wire.EncodeString(name) + Wire.EncodeVarInt(Uint32(status))
    case ByUUID => name + Wire.EncodeVarInt(Uint32(status))
    case Unnamed => Wire.EncodeVarInt(Uint32(status))
  }

  /** The code of a status, and none of the known codes for an unknown one. */
  predicate StatusSays(status: Status, code: int32) {
    match status
    case SuccessfullyLoaded => code == 0
    case Declined => code == 1
    case FailedDownload => code == 2
    case Accepted => code == 3
    case Downloaded => code == 4
    case InvalidURL => code == 5
    case FailedReload => code == 6
    case Discarded => code == 7
    case Unknown(kept) => kept == code && !(0 <= code < 8)
  }

  lemma StatusSaysCode(code: int32)
    ensures StatusSays(StatusOf(code), code)
  {}

  /** A live pack is found by its UUID on modern protocols and by its hash on protocol 47, and a
      client that names none answers for a live pack if there is one. */
  lemma AnswerFindsPack(session: Session, uuidText: seq<byte> -> Text, uuid: Text -> Text, s: Packs, p: Pack,
                        raw: seq<byte>, status: int32)
    requires Agrees(uuid, s) && p.id in s.live && s.live[p.id] == p
    requires session.naming == ByHash ==> raw == p.hash && 0 < |raw| <= 160
    requires session.naming == ByUUID ==> |raw| == 16 && uuidText(raw) == uuid(p.id) != []
    ensures var r := Answer(session, uuidText, s, AnswerBytes(session.naming, raw, status));
      && r.Ok? && r.value.code == status && StatusSays(r.value.status, status)
      && r.value.player == session.player && r.value.protocol == session.protocol
      && (session.naming != Unnamed ==> r.value.id == p.id && r.value.pack == Some(p))
      && (session.naming == Unnamed ==> r.value.id in s.live && r.value.pack == Some(s.live[r.value.id]))
  {
    StatusSaysCode(status);
    hide Agrees, Names, StatusOf, StatusSays, Wire.DecodeVarInt, Wire.DecodeString, Wire.EncodeVarInt;
    var tail := Wire.EncodeVarInt(Uint32(status));
    Wire.VarIntRoundTrip(Uint32(status), []);
    assert tail + [] == tail;
    assert Int32(Uint32(status)) == status;
    FindsNames(uuid, s, p);
    match session.naming {
      case ByHash =>
        Wire.StringRoundTrip(raw, 40, tail);
      case ByUUID =>
        assert AnswerBytes(session.naming, raw, status)[..16] == raw && AnswerBytes(session.naming, raw, status)[16..] == tail;
      case Unnamed =>
    }
  }

  /** A name that is indexed for no pack is taken for a pack's id, and bytes behind an answer make it
      an error. */
  lemma AnswerNamesItself(session: Session, uuidText: seq<byte> -> Text, s: Packs, raw: seq<byte>, status: int32,
                          more: seq<byte>)
    requires session.naming == ByHash && 0 < |raw| <= 160
    ensures var r := Answer(session, uuidText, s, AnswerBytes(session.naming, raw, status) + more);
      && (more != [] ==> r == Err(TrailingBytes))
      && (more == [] && raw !in s.index ==>
            && r.Ok? && r.value.id == raw && r.value.code == status && StatusSays(r.value.status, status)
            && r.value.pack == if raw in s.live then Some(s.live[raw]) else None)
  {
    StatusSaysCode(status);
    hide StatusOf, StatusSays, Wire.DecodeVarInt, Wire.DecodeString, Wire.EncodeVarInt;
    var tail := Wire.EncodeVarInt(Uint32(status));
    Wire.VarIntRoundTrip(Uint32(status), more);
    assert Int32(Uint32(status)) == status;
    Wire.StringRoundTrip(raw, 40, tail + more);
    assert AnswerBytes(session.naming, raw, status) + more == Wire.EncodeString(raw) + (tail + more);
  }

  lemma FindsNames(uuid: Text -> Text, s: Packs, p: Pack)
    requires Agrees(uuid, s) && p.id in s.live && s.live[p.id] == p
    ensures PackNamed(s, uuid(p.id)) == p.id || uuid(p.id) == []
    ensures p.hash != [] ==> PackNamed(s, p.hash) == p.id
    ensures PackNamed(s, []) in s.live
  {
    assert Found(uuid, s, p);
  }

  /** No other name but a pack's own id finds a pack. */
  lemma OnlyLivePacksFound(uuid: Text -> Text, s: Packs, name: Text)
    requires Agrees(uuid, s) && name != []
    ensures PackNamed(s, name) in s.live
        <==> name in s.live || exists id | id in s.live :: name in Names(uuid, s.live[id])
  {
    if id :| id in s.live && name in Names(uuid, s.live[id]) {
      assert Found(uuid, s, s.live[id]);
    }
  }

  // ----- two updates that may not be made

  /** A pack whose hash is the UUID of an id not live: removing that id, which removes no pack, loses
      the hash from the index. */
  lemma RemovingNothingLosesAName(uuid: Text -> Text, p: Pack, id: Text, next: Packs)
    requires p.id != [] && p.id != id && p.hash == uuid(id) != []
    requires Forgotten(uuid, Remembered(uuid, NO_PACKS, p), id, next)
    ensures next.live == map[p.id := p] && PackNamed(next, p.hash) == p.hash
  {
    assert p.id in next.live;
    assert next.live == map[p.id := p];
  }

  /** A pack added again with another hash, and removed: the first hash still names it. */
  lemma ChangedHashIsStale(uuid: Text -> Text, p: Pack, hash: Text, next: Packs)
    requires p.hash != [] && p.hash != hash && p.hash != uuid(p.id)
    requires Forgotten(uuid, Remembered(uuid, Remembered(uuid, NO_PACKS, p), p.(hash := hash)), p.id, next)
    ensures next.live == map[] && PackNamed(next, p.hash) == p.id
  {
    assert p.id !in next.live;
    assert next.live.Keys == {};
  }
}
