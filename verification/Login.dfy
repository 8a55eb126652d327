/** Who is let in, and over which connection: serveLogin of protocol/limbo/router.go and
    performOnlineSessionAuth of protocol/limbo/session_auth.go.  Policies, the verifier, RSA, SHA-1,
    random numbers and the transport are arbitrary functions and inputs. */
module Login {
  import opened Bits
  import opened Wrappers
  import Wire

  type Text = seq<byte>

  const OFFLINE: Text := [111, 102, 102, 108, 105, 110, 101]
  const ONLINE: Text := [111, 110, 108, 105, 110, 101]
  const HYBRID: Text := [104, 121, 98, 114, 105, 100]

  const PROTOCOL_759: int32 := 759
  const PROTOCOL_760: int32 := 760
  const PROTOCOL_766: int32 := 766

  /** errors.Is(err, ErrInvalidLogin), or any other error. */
  datatype Error = InvalidLogin | Other

  datatype Property = Property(name: Text, value: Text, signature: Text)

  datatype Request = Request(username: Text, claimedUUID: Text, protocol: int32, remoteIP: Text, host: Text)

  datatype LoginProfile = LoginProfile(name: Text, uuid: Text, properties: seq<Property>)

  datatype Decision = Decision(mode: Text, profile: Option<LoginProfile>)

  datatype VerifiedProfile =
    VerifiedProfile(uuid: Text, name: Text, properties: seq<Property>, source: Text, verified: bool)

  datatype Proof = Proof(username: Text, serverID: Text, remoteIP: Text, protocol: int32, host: Text)

  datatype Player = Player(name: Text, uuid: Text, mode: Text, source: Option<Text>, verified: bool,
                           properties: seq<Property>, protocol: int32, host: Text)

  /** What play goes on over. */
  datatype Channel = Plain | Encrypted(secret: seq<byte>)

  datatype Event =
    | Sent(packet: Wire.Packet)
    | TokenMatched
    | CipherInstalled(secret: seq<byte>)
    | Verifying(proof: Proof)
    | Disconnected(over: Channel)
    | Adapter(player: Player, over: Channel)

  /** Everything a login depends on that is not this code. */
  datatype Outside = Outside(
    decisionPolicy: Option<Request -> Result<Decision, Error>>,
    loginPolicy: Option<Request -> Result<Text, Error>>,
    loginMode: Text,
    serverID: Text,
    verifier: Option<Proof -> Result<VerifiedProfile, Error>>,
    publicKey: Option<seq<byte>>,
    token: Option<seq<byte>>,
    requestID: Option<int32>,
    responseID: Option<int32>,
    sends: bool,
    response: Option<Wire.Packet>,
    decrypt: seq<byte> -> Option<seq<byte>>,
    digest: seq<byte> -> Text,
    offlineUUID: Text -> Text)

  // ----- byte arrays and the encryption packets

  function EncodeArray(value: seq<byte>): seq<byte> {
    Wire.EncodeVarInt(Uint32(|value|)) + value
  }

  /** bytes.Reader reports the end even for no bytes when none are left. */
  function DecodeArray(s: seq<byte>): Result<(seq<byte>, seq<byte>), Error> {
    match Wire.DecodeVarInt(s)
    case Err(_) => Err(Other)
    case Ok((u, rest)) =>
      var length := Int32(u);
      if length < 0 || length > |rest| || rest == [] then Err(Other)
      else Ok((rest[..length], rest[length..]))
  }

  method ReadLoginByteArray(reader: Wire.Reader) returns (r: Result<seq<byte>, Error>)
    modifies reader
    ensures r.Ok? <==> DecodeArray(old(reader.rest)).Ok?
    ensures r.Err? ==> r == Err(Other)
    ensures r.Ok? ==> DecodeArray(old(reader.rest)) == Ok((r.value, reader.rest))
  {
    var length := Wire.ReadVarInt(reader);
    if length.Err? || length.value < 0 || length.value > |reader.rest| {
      return Err(Other);
    }
    if reader.rest == [] {
      return Err(Other);
    }
    var value := reader.ReadFull(length.value);
    return Ok(value.value);
  }

  predicate FlagsToken(protocol: int32) {
    protocol == PROTOCOL_759 || protocol == PROTOCOL_760
  }

  /** The encrypted secret and token of a response. */
  function DecodeResponse(protocol: int32, data: seq<byte>): Result<(seq<byte>, seq<byte>), Error> {
    var (secret, rest) :- DecodeArray(data);
    if FlagsToken(protocol) && (rest == [] || rest[0] == 0) then Err(Other)
    else
      var (token, end) :- DecodeArray(if FlagsToken(protocol) then rest[1..] else rest);
      if end != [] then Err(InvalidLogin) else Ok((secret, token))
  }

  /** The same two, decrypted. */
  function OpenResponse(out: Outside, protocol: int32, data: seq<byte>): Result<(seq<byte>, seq<byte>), Error> {
    var (secret, token) :- DecodeResponse(protocol, data);
    if out.decrypt(secret) == None || out.decrypt(token) == None then Err(Other)
    else Ok((out.decrypt(secret).value, out.decrypt(token).value))
  }

  method ReadEncryptionResponse(out: Outside, protocol: int32, data: seq<byte>)
    returns (r: Result<(seq<byte>, seq<byte>), Error>)
    ensures r == OpenResponse(out, protocol, data)
  {
    var reader := new Wire.Reader(data);
    var encryptedSecret :- ReadLoginByteArray(reader);
    if protocol == PROTOCOL_759 || protocol == PROTOCOL_760 {
      var flag := reader.ReadByte();
      if flag.Err? || flag.value == 0 {
        return Err(Other);
      }
    }
    var encryptedToken :- ReadLoginByteArray(reader);
    if |reader.rest| != 0 {
      return Err(InvalidLogin);
    }
    var secret := out.decrypt(encryptedSecret);
    if secret == None {
      return Err(Other);
    }
    var token := out.decrypt(encryptedToken);
    if token == None {
      return Err(Other);
    }
    return Ok((secret.value, token.value));
  }

  /** A response, as a client of the protocol writes it: two versions have a flag for the token. */
  function EncodeResponse(protocol: int32, secret: seq<byte>, flag: byte, token: seq<byte>): seq<byte> {
    EncodeArray(secret) + (if protocol == 759 || protocol == 760 then [flag] else []) + EncodeArray(token)
  }

  /** A client's response is read back if its token is flagged, where there is a flag, and not empty,
      because then the end comes too soon, and nothing comes behind it. */
  lemma ResponseRoundTrip(protocol: int32, secret: seq<byte>, flag: byte, token: seq<byte>, more: seq<byte>)
    requires |secret| < 0x8000_0000 && |token| < 0x8000_0000
    ensures DecodeResponse(protocol, EncodeResponse(protocol, secret, flag, token) + more)
         == if protocol in {759, 760} && flag == 0 then Err(Other)
            else if token == [] && more == [] then Err(Other)
            else if more != [] then Err(InvalidLogin)
            else Ok((secret, token))
  {
    hide DecodeArray, EncodeArray;
    var flags: seq<byte> := if FlagsToken(protocol) then [flag] else [];
    var tail := EncodeArray(token) + more;
    NonEmpty(token);
    assert EncodeResponse(protocol, secret, flag, token) + more == EncodeArray(secret) + (flags + tail);
    ArrayRoundTrip(secret, flags + tail);
    ArrayRoundTrip(token, more);
    if FlagsToken(protocol) {
      assert (flags + tail)[1..] == tail;
    } else {
      assert flags + tail == tail;
    }
  }

  lemma NonEmpty(value: seq<byte>)
    ensures EncodeArray(value) != []
  {}

  lemma ArrayRoundTrip(value: seq<byte>, suffix: seq<byte>)
    requires |value| < 0x8000_0000
    ensures DecodeArray(EncodeArray(value) + suffix)
      == if value + suffix == [] then Err(Other) else Ok((value, suffix))
  {
    var tail := value + suffix;
    assert EncodeArray(value) + suffix == Wire.EncodeVarInt(|value|) + tail;
    Wire.VarIntRoundTrip(|value|, tail);
  }

  /** The request: the server id, the key, the token, and on newer protocols that it is to be verified. */
  function EncodeRequest(out: Outside, protocol: int32, key: seq<byte>, token: seq<byte>): seq<byte> {
    Wire.EncodeString(out.serverID) + EncodeArray(key) + EncodeArray(token)
    + if protocol >= PROTOCOL_766 then [1] else []
  }

  /** A client reads the server id, the key and the token, and from protocol 766 on one byte more. */
  lemma RequestRoundTrip(out: Outside, protocol: int32, key: seq<byte>, token: seq<byte>, maxChars: int32)
    requires |out.serverID| <= Int32(maxChars * 4) && |key| < 0x8000_0000 && 0 < |token| < 0x8000_0000
    ensures var end: seq<byte> := if protocol >= 766 then [1] else [];
      var afterKey := EncodeArray(token) + end;
      var afterID := EncodeArray(key) + afterKey;
      && Wire.DecodeString(EncodeRequest(out, protocol, key, token), maxChars) == Ok((out.serverID, afterID))
      && DecodeArray(afterID) == Ok((key, afterKey))
      && DecodeArray(afterKey) == Ok((token, end))
  {
    hide DecodeArray, EncodeArray, Wire.EncodeString, Wire.DecodeString;
    var end: seq<byte> := if protocol >= 766 then [1] else [];
    var afterKey := EncodeArray(token) + end;
    NonEmpty(token);
    assert EncodeRequest(out, protocol, key, token) == Wire.EncodeString(out.serverID) + (EncodeArray(key) + afterKey);
    Wire.StringRoundTrip(out.serverID, maxChars, EncodeArray(key) + afterKey);
    ArrayRoundTrip(key, afterKey);
    ArrayRoundTrip(token, end);
  }

  // ----- players

  function OfflinePlayer(out: Outside, req: Request): Player {
    Player(req.username, out.offlineUUID(req.username), OFFLINE, Some(OFFLINE), false, [], req.protocol, req.host)
  }

  function OfflinePlayerWithProfile(out: Outside, req: Request, profile: LoginProfile): Player {
    var name := if profile.name == [] then req.username else profile.name;
    var uuid := if profile.uuid == [] then out.offlineUUID(name) else profile.uuid;
    Player(name, uuid, OFFLINE, Some(OFFLINE), false, profile.properties, req.protocol, req.host)
  }

  function VerifiedPlayer(req: Request, p: VerifiedProfile): Player {
    Player(p.name, p.uuid, ONLINE, Some(p.source), p.verified, p.properties, req.protocol, req.host)
  }

  // ----- the decision

  method ResolveLoginDecision(out: Outside, req: Request) returns (r: Result<Decision, Error>)
    ensures r == Decided(out, req)
  {
    if out.decisionPolicy.Some? {
      var decision := out.decisionPolicy.value(req);
      if decision.Err? {
        return decision;
      }
      return Ok(NormalizeLoginDecision(decision.value));
    }
    if out.loginPolicy.Some? {
      var mode := out.loginPolicy.value(req);
      if mode.Err? {
        return Err(mode.error);
      }
      return Ok(NormalizeLoginDecision(Decision(mode.value, None)));
    }
    if out.loginMode == [] {
      return Ok(Decision(OFFLINE, None));
    }
    return Ok(Decision(out.loginMode, None));
  }

  function NormalizeLoginDecision(d: Decision): Decision {
    var mode := if d.mode == [] then OFFLINE else d.mode;
    Decision(mode, if mode == OFFLINE then d.profile else None)
  }

  /** What the policies come to: the decision policy before the login policy before the fixed mode. */
  function Decided(out: Outside, req: Request): (r: Result<Decision, Error>)
    ensures r.Ok? ==> r.value.mode != [] && (r.value.profile.Some? ==> r.value.mode == OFFLINE)
  {
    if out.decisionPolicy.Some? then
      match out.decisionPolicy.value(req)
      case Ok(d) => Ok(NormalizeLoginDecision(d))
      case Err(e) => Err(e)
    else if out.loginPolicy.Some? then
      match out.loginPolicy.value(req)
      case Ok(mode) => Ok(NormalizeLoginDecision(Decision(mode, None)))
      case Err(e) => Err(e)
    else Ok(NormalizeLoginDecision(Decision(out.loginMode, None)))
  }

  /** The decision policy is asked first, the login policy only without it, and the fixed mode only
      without both; no mode is offline mode, and only there a profile counts. */
  lemma DecisionPrecedence(out: Outside, req: Request)
    ensures out.decisionPolicy.Some? ==>
      var answer := out.decisionPolicy.value(req);
      && (answer.Err? ==> Decided(out, req) == answer)
      && (answer.Ok? && answer.value.mode in {[], OFFLINE} ==>
            Decided(out, req) == Ok(Decision(OFFLINE, answer.value.profile)))
      && (answer.Ok? && answer.value.mode !in {[], OFFLINE} ==>
            Decided(out, req) == Ok(Decision(answer.value.mode, None)))
    ensures out.decisionPolicy.None? && out.loginPolicy.Some? ==>
      var answer := out.loginPolicy.value(req);
      && (answer.Err? ==> Decided(out, req) == Err(answer.error))
      && (answer.Ok? ==> Decided(out, req) == Ok(Decision(ModeOrOffline(answer.value), None)))
    ensures out.decisionPolicy.None? && out.loginPolicy.None? ==>
      Decided(out, req) == Ok(Decision(ModeOrOffline(out.loginMode), None))
  {}

  function ModeOrOffline(mode: Text): Text {
    if mode == [] then OFFLINE else mode
  }

  // ----- what must hold for a verified login

  predicate Asks(out: Outside) {
    out.publicKey.Some? && out.token.Some? && out.requestID.Some?
  }

  /** The client returned the token it was sent, and this secret with it. */
  ghost predicate Handshaken(out: Outside, protocol: int32, secret: seq<byte>): (b: bool)
    ensures b ==> Asks(out)
  {
    && out.verifier.Some? && out.publicKey.Some? && out.token.Some? && out.requestID.Some? && out.sends
    && out.response.Some? && out.responseID == Some(out.response.value.id)
    && OpenResponse(out, protocol, out.response.value.data) == Ok((secret, out.token.value))
    && |secret| in {16, 24, 32}
  }

  /** The client's response gave the handshake: it holds the secret and the token that was sent, each
      encrypted, and the secret is the key of a cipher. */
  lemma HandshakenMeans(out: Outside, protocol: int32, encrypted: seq<byte>, token: seq<byte>, secret: seq<byte>)
    requires |encrypted| < 0x8000_0000 && |token| < 0x8000_0000
    requires out.response.Some? && out.response.value.data == EncodeResponse(protocol, encrypted, 1, token)
    ensures Handshaken(out, protocol, secret) <==>
      && out.verifier.Some? && Asks(out) && out.sends && out.responseID == Some(out.response.value.id)
      && token != [] && out.decrypt(token) == out.token && out.decrypt(encrypted) == Some(secret)
      && (|secret| == 16 || |secret| == 24 || |secret| == 32)
  {
    OpensTo(out, protocol, encrypted, token);
    hide EncodeResponse, OpenResponse;
  }

  /** What a client's response is opened to. */
  lemma OpensTo(out: Outside, protocol: int32, encrypted: seq<byte>, token: seq<byte>)
    requires |encrypted| < 0x8000_0000 && |token| < 0x8000_0000
    ensures OpenResponse(out, protocol, EncodeResponse(protocol, encrypted, 1, token))
         == if token == [] || out.decrypt(encrypted) == None || out.decrypt(token) == None then Err(Other)
            else Ok((out.decrypt(encrypted).value, out.decrypt(token).value))
  {
    ResponseRoundTrip(protocol, encrypted, 1, token, []);
    hide EncodeResponse, DecodeResponse;
    assert EncodeResponse(protocol, encrypted, 1, token) + [] == EncodeResponse(protocol, encrypted, 1, token);
  }

  function ProofOf(out: Outside, req: Request, secret: seq<byte>): Proof
    requires out.publicKey.Some?
  {
    Proof(req.username, out.digest(out.serverID + secret + out.publicKey.value), req.remoteIP, req.protocol, req.host)
  }

  predicate Complete(p: VerifiedProfile) {
    p.uuid != [] && p.name != [] && p.verified
  }

  /** The verifier vouched for this profile on the proof made from the secret. */
  ghost predicate Vouched(out: Outside, req: Request, secret: seq<byte>, p: VerifiedProfile)
  {
    && out.verifier.Some? && out.publicKey.Some?
    && out.verifier.value(ProofOf(out, req, secret)) == Ok(p) && Complete(p)
  }

  /** The verifier says the session is not a valid one, or returns a profile with something missing. */
  ghost predicate NotVouched(out: Outside, req: Request, secret: seq<byte>)
  {
    out.verifier.Some? && out.publicKey.Some? &&
    match out.verifier.value(ProofOf(out, req, secret))
    case Ok(p) => !Complete(p)
    case Err(e) => e == InvalidLogin
  }

  // ----- the login

  class Connection {
    var log: seq<Event>

    constructor ()
      ensures log == []
    {
      log := [];
    }

    method Record(e: Event)
      modifies this
      ensures log == old(log) + [e]
    {
      log := log + [e];
    }

    method Refuse(over: Channel)
      modifies this
      ensures log == old(log) + [Disconnected(over)] && log[..|log| - 1] == old(log)
    {
      Record(Disconnected(over));
    }

    method WriteEncryptionRequest(out: Outside, protocol: int32, key: seq<byte>, token: seq<byte>)
      requires out.requestID.Some?
      modifies this
      ensures log == old(log) + [Sent(Wire.Packet(out.requestID.value, EncodeRequest(out, protocol, key, token)))]
    {
      hide Wire.EncodeVarInt;
      var data := new Wire.Buffer();
      Wire.WriteString(data, out.serverID);
      WriteLoginByteArray(data, key);
      WriteLoginByteArray(data, token);
      if protocol >= PROTOCOL_766 {
        data.WriteByte(1);
      }
      assert data.contents == EncodeRequest(out, protocol, key, token);
      Record(Sent(Wire.Packet(out.requestID.value, data.contents)));
    }

    /** Some channel once the cipher is installed, whatever the verifier then says. */
    method PerformOnlineSessionAuth(out: Outside, protocol: int32, req: Request)
      returns (channel: Option<Channel>, r: Result<VerifiedProfile, Error>)
      modifies this
      ensures channel.None? ==> r.Err?
      ensures forall secret :: Handshaken(out, protocol, secret) <==> channel == Some(Encrypted(secret))
      ensures channel.Some? ==>
        && channel.value.Encrypted? && Handshaken(out, protocol, channel.value.secret)
        && (forall p :: Vouched(out, req, channel.value.secret, p) <==> r == Ok(p))
        && (r == Err(InvalidLogin) <==> NotVouched(out, req, channel.value.secret))
        && log == old(log) + Steps(out, protocol, req, channel.value.secret)
      ensures channel.None? ==> NothingAsked(old(log), log)
      ensures forall i | |old(log)| <= i < |log| :: !log[i].Adapter?
    {
      hide OpenResponse, EncodeRequest;
      channel := None;
      if out.verifier == None {
        return channel, Err(InvalidLogin);
      }
      if out.publicKey == None || out.token == None || out.requestID == None || !out.sends {
        return channel, Err(Other);
      }
      var key, verifyToken := out.publicKey.value, out.token.value;
      WriteEncryptionRequest(out, protocol, key, verifyToken);
      if out.response == None || out.responseID != Some(out.response.value.id) {
        return channel, Err(Other);
      }
      var answer := ReadEncryptionResponse(out, protocol, out.response.value.data);
      if answer.Err? {
        return channel, Err(answer.error);
      }
      var (sharedSecret, responseToken) := answer.value;
      if responseToken != verifyToken {
        return channel, Err(InvalidLogin);
      }
      Record(TokenMatched);
      if |sharedSecret| !in {16, 24, 32} {
        return channel, Err(Other);
      }
      channel := Some(Encrypted(sharedSecret));
      Record(CipherInstalled(sharedSecret));
      var digest := out.digest(out.serverID + sharedSecret + key);
      var proof := Proof(req.username, digest, req.remoteIP, req.protocol, req.host);
      Record(Verifying(proof));
      var profile := out.verifier.value(proof);
      if profile.Err? {
        return channel, profile;
      }
      if profile.value.uuid == [] || profile.value.name == [] || !profile.value.verified {
        return channel, Err(InvalidLogin);
      }
      return channel, profile;
    }

    /** The mode switch of serveLogin, up to the adapter of the protocol version. */
    method ServeLogin(out: Outside, req: Request) returns (r: Result<Player, Error>)
      modifies this
      requires log == []
      ensures Outcome(out, req, log)
      ensures r.Err? <==> forall player, over :: !Admitted(out, req, player, over)
    {
      hide Handshaken, Vouched, NotVouched, Steps, OfflinePlayer, OfflinePlayerWithProfile, VerifiedPlayer, Decided,
        Outcome, NothingAsked;
      if Decided(out, req).Err? {
        UnknownOutcome(out, req);
      }
      var decision :- ResolveLoginDecision(out, req);
      var player;
      var conn := Plain;
      if decision.mode == OFFLINE {
        player := if decision.profile == None then OfflinePlayer(out, req)
                  else OfflinePlayerWithProfile(out, req, decision.profile.value);
      } else if decision.mode == ONLINE {
        var authConn, profile := PerformOnlineSessionAuth(out, req.protocol, req);
        assert AuthEnd(out, req, log, authConn);
        if profile.Err? {
          RefusedOutcome(out, req, log, authConn);
          Refuse(if authConn.Some? then authConn.value else conn);
          return Err(profile.error);
        }
        conn := authConn.value;
        player := VerifiedPlayer(req, profile.value);
      } else if decision.mode == HYBRID {
        var authConn, profile := PerformOnlineSessionAuth(out, req.protocol, req);
        assert AuthEnd(out, req, log, authConn);
        if profile.Ok? {
          conn := authConn.value;
          player := VerifiedPlayer(req, profile.value);
        } else if profile.error == InvalidLogin && authConn.Some? {
          conn := authConn.value;
          player := OfflinePlayer(out, req);
        } else {
          RefusedOutcome(out, req, log, authConn);
          Refuse(if authConn.Some? then authConn.value else conn);
          return Err(profile.error);
        }
      } else {
        UnknownOutcome(out, req);
        return Err(InvalidLogin);
      }
      AdmittedOutcome(out, req, log, player, conn);
      Record(Adapter(player, conn));
      return Ok(player);
    }
  }

  // ----- who is admitted

  /** A player a login may admit, and the connection it is then served over. */
  ghost predicate Admitted(out: Outside, req: Request, player: Player, over: Channel) {
    Decided(out, req).Ok? &&
    var d := Decided(out, req).value;
    || (d.mode == OFFLINE && over == Plain
        && player == if d.profile.Some? then OfflinePlayerWithProfile(out, req, d.profile.value)
                     else OfflinePlayer(out, req))
    || (d.mode in {ONLINE, HYBRID} && over.Encrypted? && Handshaken(out, req.protocol, over.secret)
        && exists p :: Vouched(out, req, over.secret, p) && player == VerifiedPlayer(req, p))
    || (d.mode == HYBRID && over.Encrypted? && Handshaken(out, req.protocol, over.secret)
        && NotVouched(out, req, over.secret) && player == OfflinePlayer(out, req))
  }

  predicate Authenticates(out: Outside, req: Request) {
    Decided(out, req).Ok? && Decided(out, req).value.mode in {ONLINE, HYBRID}
  }

  /** The log of a login: the adapter is reached by exactly who is admitted, as the last event; after
      a handshake come its four steps and one end over its cipher; without one a login that asks for
      it ends in a refusal over the plain connection; and any other does nothing else. */
  ghost predicate Outcome(out: Outside, req: Request, events: seq<Event>) {
    Adapters(out, req, events) && EndsOnce(events) && LogShape(out, req, events)
  }

  ghost predicate Adapters(out: Outside, req: Request, events: seq<Event>) {
    forall player, over :: Admitted(out, req, player, over) <==> Adapter(player, over) in events
  }

  ghost predicate EndsOnce(events: seq<Event>) {
    forall i | 0 <= i < |events| - 1 :: !events[i].Adapter? && !events[i].Disconnected?
  }

  ghost predicate LogShape(out: Outside, req: Request, events: seq<Event>) {
    if !Authenticates(out, req) then |events| <= 1 && forall i | 0 <= i < |events| :: events[i].Adapter?
    else
      && events != []
      && (forall secret :: Handshaken(out, req.protocol, secret) ==> FullLog(out, req, events, secret))
      && ((forall secret :: !Handshaken(out, req.protocol, secret)) ==>
            events[|events| - 1] == Disconnected(Plain) && NothingAsked([], events[..|events| - 1]))
  }

  ghost predicate FullLog(out: Outside, req: Request, events: seq<Event>, secret: seq<byte>)
    requires Asks(out)
  {
    |events| == 5 && events[..4] == Steps(out, req.protocol, req, secret) && EndsOver(events[4], Encrypted(secret))
  }

  /** What a login has done when performOnlineSessionAuth has returned. */
  ghost predicate AuthEnd(out: Outside, req: Request, before: seq<Event>, channel: Option<Channel>) {
    && (forall secret :: Handshaken(out, req.protocol, secret) <==> channel == Some(Encrypted(secret)))
    && (channel.Some? ==>
          && channel.value.Encrypted? && Handshaken(out, req.protocol, channel.value.secret)
          && before == Steps(out, req.protocol, req, channel.value.secret))
    && (channel.None? ==> NothingAsked([], before))
  }

  lemma RefusedOutcome(out: Outside, req: Request, before: seq<Event>, channel: Option<Channel>)
    requires Authenticates(out, req) && AuthEnd(out, req, before, channel)
    requires forall player, over :: !Admitted(out, req, player, over)
    ensures Outcome(out, req, before + [Disconnected(if channel.Some? then channel.value else Plain)])
  {
    hide Handshaken, Admitted, Steps;
    var end := Disconnected(if channel.Some? then channel.value else Plain);
    ShapeOf(out, req, before, channel, end);
    assert forall i | 0 <= i < |before| :: !before[i].Adapter? && !before[i].Disconnected?;
  }

  lemma AdmittedOutcome(out: Outside, req: Request, before: seq<Event>, player: Player, over: Channel)
    requires Admitted(out, req, player, over)
    requires if Authenticates(out, req) then AuthEnd(out, req, before, Some(over)) else before == []
    ensures Outcome(out, req, before + [Adapter(player, over)])
  {
    OnlyOneAdmitted(out, req, player, over);
    hide Handshaken, Admitted, Steps, LogShape;
    OneAdapter(before, player, over);
    if Authenticates(out, req) {
      ShapeOf(out, req, before, Some(over), Adapter(player, over));
    } else {
      ShapeAlone(out, req, player, over);
      assert before + [Adapter(player, over)] == [Adapter(player, over)];
    }
  }

  lemma ShapeAlone(out: Outside, req: Request, player: Player, over: Channel)
    requires !Authenticates(out, req)
    ensures LogShape(out, req, [Adapter(player, over)])
  {}

  lemma ShapeOf(out: Outside, req: Request, before: seq<Event>, channel: Option<Channel>, end: Event)
    requires Authenticates(out, req) && AuthEnd(out, req, before, channel)
    requires EndsOver(end, if channel.Some? then channel.value else Plain) && (channel.None? ==> end.Disconnected?)
    ensures LogShape(out, req, before + [end])
  {
    hide Handshaken, Steps, Authenticates;
    var events := before + [end];
    assert events[..|events| - 1] == before && events[|before|] == end;
    forall secret | Handshaken(out, req.protocol, secret)
      ensures FullLog(out, req, events, secret)
    {
      assert before == Steps(out, req.protocol, req, secret);
    }
  }

  lemma OneAdapter(before: seq<Event>, player: Player, over: Channel)
    requires forall i | 0 <= i < |before| :: !before[i].Adapter?
    ensures forall p, o :: Adapter(p, o) in before + [Adapter(player, over)] <==> p == player && o == over
  {
    var events := before + [Adapter(player, over)];
    assert events[|before|] == Adapter(player, over);
  }

  lemma OnlyOneAdmitted(out: Outside, req: Request, player: Player, over: Channel)
    requires Admitted(out, req, player, over)
    ensures forall p, o :: Admitted(out, req, p, o) <==> p == player && o == over
    ensures !Authenticates(out, req) ==> over == Plain
  {
    forall p, o | Admitted(out, req, p, o)
      ensures p == player && o == over
    {
      AdmittedOnce(out, req, p, player, o, over);
    }
  }

  lemma UnknownOutcome(out: Outside, req: Request)
    requires Decided(out, req).Err? || Decided(out, req).value.mode !in {OFFLINE, ONLINE, HYBRID}
    ensures Outcome(out, req, [])
    ensures forall player, over :: !Admitted(out, req, player, over)
  {}

  predicate EndsOver(e: Event, over: Channel) {
    (e.Adapter? || e.Disconnected?) && e.over == over
  }

  /** A verified player reaches an adapter only with the token returned and a complete, verified
      profile from the verifier, and is served over the cipher of the secret that was proved. */
  lemma VerifiedIsVouched(out: Outside, req: Request, player: Player, over: Channel)
    requires Admitted(out, req, player, over) && player.verified
    ensures Decided(out, req).value.mode in {ONLINE, HYBRID}
    ensures over.Encrypted? && Handshaken(out, req.protocol, over.secret)
    ensures out.verifier.value(Proof(req.username, out.digest(out.serverID + over.secret + out.publicKey.value),
                                     req.remoteIP, req.protocol, req.host))
         == Ok(VerifiedProfile(player.uuid, player.name, player.properties, player.source.value, true))
    ensures player.uuid != [] && player.name != []
    ensures player.mode == ONLINE && player.protocol == req.protocol && player.host == req.host
  {
    var p :| Vouched(out, req, over.secret, p) && player == VerifiedPlayer(req, p);
    assert p == VerifiedProfile(player.uuid, player.name, player.properties, player.source.value, true);
  }

  /** Without a verifier a player is who the profile says, and where it says nothing the name that was
      asked for and the offline UUID of the player's name, never the UUID that was claimed. */
  lemma OfflineModeAdmits(out: Outside, req: Request, player: Player, over: Channel)
    requires Decided(out, req).Ok? && Decided(out, req).value.mode == OFFLINE
    ensures var given := Decided(out, req).value.profile;
      Admitted(out, req, player, over) <==>
        && over == Plain && player.mode == OFFLINE && player.source == Some(OFFLINE) && !player.verified
        && player.protocol == req.protocol && player.host == req.host
        && player.name == (if given.Some? && given.value.name != [] then given.value.name else req.username)
        && player.uuid == (if given.Some? && given.value.uuid != [] then given.value.uuid else out.offlineUUID(player.name))
        && player.properties == (if given.Some? then given.value.properties else [])
  {
    hide Decided;
  }

  /** In hybrid mode a player the verifier refused is the offline player of the name asked for. */
  lemma RefusedHybridPlayer(out: Outside, req: Request, player: Player, over: Channel)
    requires Decided(out, req).Ok? && Decided(out, req).value.mode == HYBRID && !player.verified
    ensures Admitted(out, req, player, over) <==>
      && over.Encrypted? && Handshaken(out, req.protocol, over.secret) && NotVouched(out, req, over.secret)
      && player == Player(req.username, out.offlineUUID(req.username), OFFLINE, Some(OFFLINE), false, [],
                          req.protocol, req.host)
  {
    hide Decided, Handshaken, NotVouched;
    assert OFFLINE != HYBRID;
  }

  /** No request admits two players, or one over two connections. */
  lemma AdmittedOnce(out: Outside, req: Request, p: Player, q: Player, over: Channel, other: Channel)
    requires Admitted(out, req, p, over) && Admitted(out, req, q, other)
    ensures p == q && over == other
  {
    if over.Encrypted? && other.Encrypted? {
      assert over.secret == other.secret;
    }
  }

  ghost predicate AnyVouched(out: Outside, req: Request, secret: seq<byte>) {
    exists p :: Vouched(out, req, secret, p)
  }

  /** The log of online mode: it ends at an adapter exactly if the client returned the token and the
      verifier vouched; the player is then verified, and before it come the token, the cipher, the
      question to the verifier, in that order.  Any other login ends refused. */
  lemma OnlineLog(out: Outside, req: Request, events: seq<Event>)
    requires Outcome(out, req, events) && Decided(out, req).Ok? && Decided(out, req).value.mode == ONLINE
    ensures events != [] && (events[|events| - 1].Adapter? || events[|events| - 1].Disconnected?)
    ensures events[|events| - 1].Adapter?
      <==> exists secret :: Handshaken(out, req.protocol, secret) && AnyVouched(out, req, secret)
    ensures forall e | e in events && e.Adapter? :: e.player.verified && InOrder(out, req, events, e.over)
  {
    hide Handshaken, Vouched, Steps, NotVouched, VerifiedPlayer;
    var last := events[|events| - 1];
    assert last in events;
    if last.Adapter? {
      assert Admitted(out, req, last.player, last.over);
    }
    if secret :| Handshaken(out, req.protocol, secret) && AnyVouched(out, req, secret) {
      var p :| Vouched(out, req, secret, p);
      assert Admitted(out, req, VerifiedPlayer(req, p), Encrypted(secret));
      assert Adapter(VerifiedPlayer(req, p), Encrypted(secret)) in events;
      AdapterIsLast(out, req, events, Adapter(VerifiedPlayer(req, p), Encrypted(secret)));
    }
    forall e | e in events && e.Adapter?
      ensures e.player.verified && InOrder(out, req, events, e.over)
    {
      assert Admitted(out, req, e.player, e.over);
      VouchedPlayers(out, req, e.player, e.over);
      EncryptedInOrder(out, req, events, e.player, e.over);
    }
  }

  /** The log of hybrid mode: it ends at an adapter exactly if the client returned the token and the
      verifier vouched or refused, in the same order and over the cipher; the player is verified
      exactly if the verifier vouched. */
  lemma HybridLog(out: Outside, req: Request, events: seq<Event>)
    requires Outcome(out, req, events) && Decided(out, req).Ok? && Decided(out, req).value.mode == HYBRID
    ensures events != [] && (events[|events| - 1].Adapter? || events[|events| - 1].Disconnected?)
    ensures events[|events| - 1].Adapter?
      <==> exists secret :: Handshaken(out, req.protocol, secret)
                            && (AnyVouched(out, req, secret) || NotVouched(out, req, secret))
    ensures forall e | e in events && e.Adapter? ::
      && InOrder(out, req, events, e.over)
      && (e.player.verified <==> AnyVouched(out, req, e.over.secret))
  {
    hide Handshaken, Vouched, Steps, NotVouched, VerifiedPlayer, OfflinePlayer;
    var last := events[|events| - 1];
    assert last in events;
    if last.Adapter? {
      assert Admitted(out, req, last.player, last.over);
    }
    if secret :| Handshaken(out, req.protocol, secret)
                 && (AnyVouched(out, req, secret) || NotVouched(out, req, secret)) {
      var player := OfflinePlayer(out, req);
      if AnyVouched(out, req, secret) {
        var p :| Vouched(out, req, secret, p);
        player := VerifiedPlayer(req, p);
      }
      assert Admitted(out, req, player, Encrypted(secret));
      AdapterIsLast(out, req, events, Adapter(player, Encrypted(secret)));
    }
    forall e | e in events && e.Adapter?
      ensures InOrder(out, req, events, e.over) && (e.player.verified <==> AnyVouched(out, req, e.over.secret))
    {
      assert Admitted(out, req, e.player, e.over);
      EncryptedInOrder(out, req, events, e.player, e.over);
      HybridPlayers(out, req, e.player, e.over);
    }
  }

  /** The token, the cipher, the verifier, the adapter. */
  ghost predicate InOrder(out: Outside, req: Request, events: seq<Event>, over: Channel) {
    && over.Encrypted? && Handshaken(out, req.protocol, over.secret)
    && |events| == 5 && events[1] == TokenMatched && events[2] == CipherInstalled(over.secret)
    && events[3] == Verifying(Proof(req.username, out.digest(out.serverID + over.secret + out.publicKey.value),
                                    req.remoteIP, req.protocol, req.host))
    && EndsOver(events[4], over)
  }

  lemma AdapterIsLast(out: Outside, req: Request, events: seq<Event>, e: Event)
    requires Outcome(out, req, events) && e in events && e.Adapter?
    ensures events != [] && events[|events| - 1] == e
  {
    var i :| 0 <= i < |events| && events[i] == e;
  }

  lemma VouchedPlayers(out: Outside, req: Request, player: Player, over: Channel)
    requires Admitted(out, req, player, over) && Decided(out, req).value.mode == ONLINE
    ensures player.verified
  {}

  lemma HybridPlayers(out: Outside, req: Request, player: Player, over: Channel)
    requires Admitted(out, req, player, over) && Decided(out, req).value.mode == HYBRID
    ensures over.Encrypted? && Handshaken(out, req.protocol, over.secret)
    ensures player.verified <==> AnyVouched(out, req, over.secret)
  {
    if p :| Vouched(out, req, over.secret, p) && player == VerifiedPlayer(req, p) {
      assert AnyVouched(out, req, over.secret);
    }
  }

  lemma EncryptedInOrder(out: Outside, req: Request, events: seq<Event>, player: Player, over: Channel)
    requires Outcome(out, req, events) && Authenticates(out, req) && Admitted(out, req, player, over)
    ensures InOrder(out, req, events, over)
  {
    hide Outcome, Admitted;
    AuthenticatedOver(out, req, player, over);
    LogOf(out, req, events, over.secret);
    var steps := Steps(out, req.protocol, req, over.secret);
    assert forall i | 0 <= i < 4 :: events[i] == events[..4][i] == steps[i];
  }

  lemma AuthenticatedOver(out: Outside, req: Request, player: Player, over: Channel)
    requires Authenticates(out, req) && Admitted(out, req, player, over)
    ensures over.Encrypted? && Handshaken(out, req.protocol, over.secret)
  {}

  lemma LogOf(out: Outside, req: Request, events: seq<Event>, secret: seq<byte>)
    requires Outcome(out, req, events) && Authenticates(out, req) && Handshaken(out, req.protocol, secret)
    ensures |events| == 5 && events[..4] == Steps(out, req.protocol, req, secret) && EndsOver(events[4], Encrypted(secret))
  {}

  /** In every mode, once the cipher is installed nothing more is served or refused over the plain
      connection, nor over another cipher; and nothing is over a cipher that was not installed. */
  lemma StaysEncrypted(out: Outside, req: Request, events: seq<Event>)
    requires Outcome(out, req, events)
    ensures forall i, j | 0 <= i < j < |events| && events[i].CipherInstalled? ::
      events[j].Adapter? || events[j].Disconnected? ==> events[j].over == Encrypted(events[i].secret)
    ensures forall e | e in events && (e.Adapter? || e.Disconnected?) && e.over.Encrypted? ::
      CipherInstalled(e.over.secret) in events
  {
    hide Outcome, Handshaken, Authenticates;
    assert forall i | 0 <= i < |events| :: events[i] in events;
    if !Authenticates(out, req) {
      PlainLog(out, req, events);
    } else if secret :| Handshaken(out, req.protocol, secret) {
      CipherInLog(out, req, events, secret);
      assert events[2] in events;
    } else {
      NoCipherInLog(out, req, events);
    }
  }

  lemma CipherInLog(out: Outside, req: Request, events: seq<Event>, secret: seq<byte>)
    requires Outcome(out, req, events) && Authenticates(out, req) && Handshaken(out, req.protocol, secret)
    ensures |events| == 5 && events[0].Sent? && events[1].TokenMatched? && events[2] == CipherInstalled(secret)
    ensures events[3].Verifying? && EndsOver(events[4], Encrypted(secret))
  {
    LogOf(out, req, events, secret);
    hide Outcome, Handshaken, Authenticates;
    assert forall i | 0 <= i < 4 :: events[i] == events[..4][i];
  }

  lemma PlainLog(out: Outside, req: Request, events: seq<Event>)
    requires Outcome(out, req, events) && !Authenticates(out, req)
    ensures forall e | e in events :: e.Adapter? && e.over == Plain
  {
    hide Handshaken;
    forall e | e in events
      ensures e.Adapter? && e.over == Plain
    {
      assert Admitted(out, req, e.player, e.over);
    }
  }

  lemma NoCipherInLog(out: Outside, req: Request, events: seq<Event>)
    requires Outcome(out, req, events) && Authenticates(out, req)
    requires forall secret :: !Handshaken(out, req.protocol, secret)
    ensures forall e | e in events :: e == Disconnected(Plain) || e.Sent? || e.TokenMatched?
  {
    hide Handshaken, Adapters, EndsOnce;
    var n := |events| - 1;
    assert forall i | 0 <= i < n :: events[i] == events[..n][i];
  }

  method WriteLoginByteArray(data: Wire.Buffer, value: seq<byte>)
    modifies data
    ensures data.contents == old(data.contents) + EncodeArray(value)
  {
    Wire.WriteVarInt(data, Int32(|value|));
    data.Write(value);
  }

  /** At most a request was sent and its token returned. */
  ghost predicate NothingAsked(before: seq<Event>, after: seq<Event>) {
    && before <= after
    && forall i | |before| <= i < |after| :: after[i].Sent? || after[i].TokenMatched?
  }

  /** What is done, in order, before the verifier answers. */
  ghost function Steps(out: Outside, protocol: int32, req: Request, secret: seq<byte>): (steps: seq<Event>)
    requires Asks(out)
    ensures |steps| == 4 && forall i | 0 <= i < 4 :: !steps[i].Adapter? && !steps[i].Disconnected?
  {
    [Sent(Wire.Packet(out.requestID.value, EncodeRequest(out, protocol, out.publicKey.value, out.token.value))),
     TokenMatched, CipherInstalled(secret), Verifying(ProofOf(out, req, secret))]
  }
}
