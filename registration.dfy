/** The registration controller: a dictionary of users keyed by username,
    and one client's session (username, challenge, loggedIn), driven by the
    two HTTP handlers. utils.generateServerMakeCredRequest builds the
    creation options the first handler sends. */
module Registration {
  import opened Bytes
  import opened Errors
  import opened External
  import opened Attestation
  import Assertion

  // ---------------------------------------------------------------------
  // generateServerMakeCredRequest

  const RpName: string := "WebAuth Test"
  const RpId: string := "localhost"
  const PublicKeyType: string := "public-key"
  const Preferred: string := "preferred"
  const RS256: int := -257

  datatype RelyingParty = RelyingParty(name: string, id: string)
  datatype UserEntity = UserEntity(id: string, name: string, displayName: string)
  datatype AuthenticatorSelection = AuthenticatorSelection(residentKey: string, requireResidentKey: bool, userVerification: string)
  datatype PubKeyCredParam = PubKeyCredParam(credentialType: string, alg: int)

  datatype MakeCredOptions = MakeCredOptions(
    challenge: string,
    rp: RelyingParty,
    user: UserEntity,
    attestation: string,
    authenticatorSelection: AuthenticatorSelection,
    credProps: bool,
    pubKeyCredParams: seq<PubKeyCredParam>)

  /** The creation options, the random 32-byte challenge given. */
  function GenerateServerMakeCredRequest(username: string, displayName: string, id: string, challenge: string): MakeCredOptions {
    MakeCredOptions(
      challenge,
      RelyingParty(RpName, RpId),
      UserEntity(id, username, displayName),
      "direct",
      AuthenticatorSelection(Preferred, false, Preferred),
      true,
      [PubKeyCredParam(PublicKeyType, ES256), PubKeyCredParam(PublicKeyType, RS256)])
  }

  /** The options carry the caller's challenge and user, prefer ES256, the one
      algorithm self attestation accepts, and name the relying party the
      assertion options name too. */
  lemma MakeCredRequestAgrees(username: string, displayName: string, id: string, challenge: string)
    ensures var o := GenerateServerMakeCredRequest(username, displayName, id, challenge);
      && o.challenge == challenge
      && o.user == UserEntity(id, username, displayName)
      && |o.pubKeyCredParams| > 0 && o.pubKeyCredParams[0] == PubKeyCredParam(PublicKeyType, ES256)
      && (forall c :: c in o.pubKeyCredParams ==> c.credentialType == Assertion.PublicKeyType)
      && o.rp.id == Assertion.RpId
  {
  }

  // ---------------------------------------------------------------------
  // State

  /** A dictionary entry. An accepted `none` attestation stores an undefined
      record, hence the Option. */
  datatype User = User(registered: bool, name: string, id: string, authenticators: seq<Option<AuthrInfo>>)

  datatype Session = Session(username: Option<string>, challenge: Option<string>, loggedIn: bool)

  datatype State = State(database: map<string, User>, session: Session)

  /** A registered user has at least one authenticator record. */
  predicate ValidState(s: State) {
    forall u :: u in s.database && s.database[u].registered ==> |s.database[u].authenticators| > 0
  }

  /** The dictionary key `database[session.username]` reads: JavaScript turns
      an undefined key into the string "undefined". */
  function SessionKey(s: Session): string {
    match s.username
    case None => "undefined"
    case Some(u) => u
  }

  // ---------------------------------------------------------------------
  // Requests and replies

  datatype CredentialResponse = CredentialResponse(
    clientDataJSON: Bytes,
    attestationObject: Option<AttestationObject>,
    authenticatorData: Option<Bytes>)

  datatype FinishRequest = FinishRequest(credentialType: string, response: CredentialResponse)

  datatype Reply =
    | CreationOptions(status: string, options: MakeCredOptions)   // reply.send(makeCredChallenge)
    | Success(message: string)                                    // reply.send({status: "ok", ...})
    | BadRequest(message: string)                                 // reply.badRequest({status: "error", ...})
    | Failure(error: Error)                                       // the handler throws

  const Origin: string := "http://localhost:8080"
  const TypeMismatch: string := "Registration failed! type is not public-key"
  const ChallengeMismatch: string := "Registration failed! Challenges do not match"
  const OriginMismatch: string := "Registration failed! Origins do not match"
  const UnknownResponse: string := "Cannot determine the type of response"
  const Registered: string := "Registration successfull"
  const NotAuthenticated: string := "Cannot authenticate signature"

  function AlreadyExists(username: string): string {
    "Username " + username + " already exists"
  }

  // ---------------------------------------------------------------------
  // The two handlers as state transitions

  /** startRegistration: refuse a registered username, otherwise (over)write
      a fresh unregistered record and remember username and challenge. */
  function StartStep(s: State, username: string, name: string, userId: string, challenge: string): (Reply, State) {
    if username in s.database && s.database[username].registered then
      (BadRequest(AlreadyExists(username)), s)
    else
      var options := GenerateServerMakeCredRequest(username, name, userId, challenge);
      (CreationOptions("ok", options),
       State(s.database[username := User(false, name, userId, [])],
             s.session.(username := Some(username), challenge := Some(challenge))))
  }

  /** finishRegistration: the type, challenge and origin checks, then the
      attestation; a verified one appends its record to the session user's
      entry, marks the entry registered and logs the session in. */
  function FinishStep(p: Platform, acceptNone: bool, s: State, req: FinishRequest): (Reply, State) {
    if req.credentialType != PublicKeyType then (BadRequest(TypeMismatch), s)
    else match p.parseClientData(req.response.clientDataJSON)
      case None => (Failure(MalformedClientData), s)
      case Some(clientData) =>
        if clientData.challenge != s.session.challenge then (BadRequest(ChallengeMismatch), s)
        else if clientData.origin != Some(Origin) then (BadRequest(OriginMismatch), s)
        else match req.response.attestationObject
          case None =>
            if req.response.authenticatorData.Some? then (Failure(NoVerificationResult), s)
            else (BadRequest(UnknownResponse), s)
          case Some(att) =>
            match AttestationOutcome(p, acceptNone, att, req.response.clientDataJSON)
            case Err(e) => (Failure(e), s)
            case Ok(result) =>
              if !result.verified then (BadRequest(NotAuthenticated), s)
              else
                var key := SessionKey(s.session);
                if key !in s.database then (Failure(NoSuchUser), s)
                else
                  var u := s.database[key];
                  (Success(Registered),
                   State(s.database[key := u.(registered := true, authenticators := u.authenticators + [result.authrInfo])],
                         s.session.(loggedIn := true)))
  }

  // ---------------------------------------------------------------------
  // The controller

  class RegistrationController {
    var database: map<string, User>
    var session: Session

    ghost function Snapshot(): State
      reads this
    {
      State(database, session)
    }

    ghost predicate Valid()
      reads this
    {
      ValidState(Snapshot())
    }

    constructor ()
      ensures database == map[] && session == Session(None, None, false)
      ensures Valid()
    {
      database := map[];
      session := Session(None, None, false);
    }

    /** startRegistration, the fresh user id and challenge given. */
    method StartRegistration(username: string, name: string, userId: string, challenge: string) returns (reply: Reply)
      requires Valid()
      modifies this
      ensures (reply, Snapshot()) == StartStep(old(Snapshot()), username, name, userId, challenge)
      ensures Valid()
    {
      if username in database && database[username].registered {
        return BadRequest(AlreadyExists(username));
      }
      var user := User(false, name, userId, []);
      database := database[username := user];
      session := session.(username := Some(username));
      var makeCredChallenge := GenerateServerMakeCredRequest(username, name, user.id, challenge);
      session := session.(challenge := Some(makeCredChallenge.challenge), username := Some(username));
      return CreationOptions("ok", makeCredChallenge);
    }

    /** finishRegistration. */
    method FinishRegistration(p: Platform, acceptNone: bool, req: FinishRequest) returns (reply: Reply)
      requires Valid()
      modifies this
      ensures (reply, Snapshot()) == FinishStep(p, acceptNone, old(Snapshot()), req)
      ensures Valid()
    {
      if req.credentialType != PublicKeyType {
        return BadRequest(TypeMismatch);
      }
      var clientData := p.parseClientData(req.response.clientDataJSON);
      if clientData.None? {
        return Failure(MalformedClientData);
      }
      if clientData.value.challenge != session.challenge {
        return BadRequest(ChallengeMismatch);
      }
      if clientData.value.origin != Some(Origin) {
        return BadRequest(OriginMismatch);
      }
      var result: Option<AttestationResponse> := None;
      if req.response.attestationObject.Some? {
        var outcome := VerifyAuthenticatorAttestationResponse(p, acceptNone, req.response.attestationObject.value, req.response.clientDataJSON);
        if outcome.Err? {
          return Failure(outcome.error);
        }
        result := Some(outcome.value);
        if outcome.value.verified {
          var key := SessionKey(session);
          if key !in database {
            return Failure(NoSuchUser);
          }
          ghost var user := database[key];
          database := database[key := database[key].(authenticators := database[key].authenticators + [outcome.value.authrInfo])];
          database := database[key := database[key].(registered := true)];
          assert database == old(database)[key := user.(registered := true, authenticators := user.authenticators + [outcome.value.authrInfo])];
        }
      } else if req.response.authenticatorData.Some? {
        // a get-assertion response: no result is computed
      } else {
        return BadRequest(UnknownResponse);
      }
      if result.None? {
        return Failure(NoVerificationResult);
      }
      if result.value.verified {
        session := session.(loggedIn := true);
        assert Snapshot() == FinishStep(p, acceptNone, old(Snapshot()), req).1;
        return Success(Registered);
      }
      return BadRequest(NotAuthenticated);
    }
  }

  // ---------------------------------------------------------------------
  // Properties of the handlers

  /** Both handlers keep every registered user with at least one record. */
  lemma StepsPreserveValid(p: Platform, acceptNone: bool, s: State, req: FinishRequest,
                          username: string, name: string, userId: string, challenge: string)
    requires ValidState(s)
    ensures ValidState(StartStep(s, username, name, userId, challenge).1)
    ensures ValidState(FinishStep(p, acceptNone, s, req).1)
  {
  }

  /** A registered entry is never lost or rewritten: it stays registered with
      the same name and id, and its records are only ever appended to. */
  lemma RegisteredEntriesOnlyGrow(p: Platform, acceptNone: bool, s: State, req: FinishRequest,
                                 username: string, name: string, userId: string, challenge: string, u: string)
    requires u in s.database && s.database[u].registered
    ensures var t := StartStep(s, username, name, userId, challenge).1;
      u in t.database && t.database[u] == s.database[u]
    ensures var t := FinishStep(p, acceptNone, s, req).1;
      && u in t.database && t.database[u].registered
      && t.database[u].name == s.database[u].name && t.database[u].id == s.database[u].id
      && s.database[u].authenticators <= t.database[u].authenticators
  {
  }

  /** A registration succeeds exactly when the type is public-key, the client
      data parses with the session's challenge and the expected origin, an
      attestation object verifies, and the session user has an entry; it then
      appends that attestation's record and logs the session in. */
  lemma FinishSucceedsExactly(p: Platform, acceptNone: bool, s: State, req: FinishRequest)
    ensures var (reply, t) := FinishStep(p, acceptNone, s, req);
      reply == Success(Registered) <==>
        && req.credentialType == PublicKeyType
        && p.parseClientData(req.response.clientDataJSON).Some?
        && p.parseClientData(req.response.clientDataJSON).value.challenge == s.session.challenge
        && p.parseClientData(req.response.clientDataJSON).value.origin == Some(Origin)
        && req.response.attestationObject.Some?
        && AttestationOutcome(p, acceptNone, req.response.attestationObject.value, req.response.clientDataJSON).Ok?
        && AttestationOutcome(p, acceptNone, req.response.attestationObject.value, req.response.clientDataJSON).value.verified
        && SessionKey(s.session) in s.database
    ensures var (reply, t) := FinishStep(p, acceptNone, s, req);
      reply == Success(Registered) ==>
        var key := SessionKey(s.session);
        var u := s.database[key];
        var result := AttestationOutcome(p, acceptNone, req.response.attestationObject.value, req.response.clientDataJSON).value;
        && t.database == s.database[key := User(true, u.name, u.id, u.authenticators + [result.authrInfo])]
        && t.session == s.session.(loggedIn := true)
    ensures var (reply, t) := FinishStep(p, acceptNone, s, req);
      reply != Success(Registered) ==> t == s
  {
  }

  /** A start that is not refused answers with the challenge it stores in the
      session, for the username it stores, and the options name that user. */
  lemma StartIssuesChallenge(s: State, username: string, name: string, userId: string, challenge: string)
    requires !(username in s.database && s.database[username].registered)
    ensures var (reply, t) := StartStep(s, username, name, userId, challenge);
      && reply.CreationOptions? && reply.status == "ok"
      && t.session.challenge == Some(reply.options.challenge)
      && t.session.username == Some(reply.options.user.name) == Some(username)
      && username in t.database && !t.database[username].registered && t.database[username].authenticators == []
      && t.session.loggedIn == s.session.loggedIn
  {
  }

  /** The type, challenge and origin checks decide before the attestation is
      looked at: when one of them fails, the outcome is the same whatever the
      attestation object or authenticator data. */
  lemma PolicyChecksPrecedeVerification(p: Platform, acceptNone: bool, s: State, req: FinishRequest, other: CredentialResponse)
    requires other.clientDataJSON == req.response.clientDataJSON
    requires
      || req.credentialType != PublicKeyType
      || p.parseClientData(req.response.clientDataJSON).None?
      || p.parseClientData(req.response.clientDataJSON).value.challenge != s.session.challenge
      || p.parseClientData(req.response.clientDataJSON).value.origin != Some(Origin)
    ensures FinishStep(p, acceptNone, s, req) == FinishStep(p, acceptNone, s, req.(response := other))
    ensures FinishStep(p, acceptNone, s, req).1 == s
    ensures FinishStep(p, acceptNone, s, req).0.BadRequest? || FinishStep(p, acceptNone, s, req).0 == Failure(MalformedClientData)
  {
  }

  /** Neither handler ever logs a session out or clears its challenge: a
      challenge stays valid for any number of finish requests until the next
      start. */
  lemma ChallengeNotConsumed(p: Platform, acceptNone: bool, s: State, req: FinishRequest)
    ensures var t := FinishStep(p, acceptNone, s, req).1;
      t.session.challenge == s.session.challenge && t.session.username == s.session.username
      && (s.session.loggedIn ==> t.session.loggedIn)
  {
  }

  /** After a start, a finish whose client data carries another challenge is
      refused without any change. */
  lemma FinishBoundToIssuedChallenge(p: Platform, acceptNone: bool, s: State, req: FinishRequest,
                                     username: string, name: string, userId: string, challenge: string)
    requires !(username in s.database && s.database[username].registered)
    requires req.credentialType == PublicKeyType
    requires p.parseClientData(req.response.clientDataJSON).Some?
    requires p.parseClientData(req.response.clientDataJSON).value.challenge != Some(challenge)
    ensures var t := StartStep(s, username, name, userId, challenge).1;
      FinishStep(p, acceptNone, t, req) == (BadRequest(ChallengeMismatch), t)
  {
  }

  /** Once a finish has registered the session user, starting again with that
      username is refused and changes nothing. */
  lemma NoReRegistration(p: Platform, acceptNone: bool, s: State, req: FinishRequest,
                         name: string, userId: string, challenge: string)
    requires FinishStep(p, acceptNone, s, req).0 == Success(Registered)
    ensures var t := FinishStep(p, acceptNone, s, req).1;
      var username := SessionKey(s.session);
      StartStep(t, username, name, userId, challenge) == (BadRequest(AlreadyExists(username)), t)
  {
    FinishSucceedsExactly(p, acceptNone, s, req);
  }

  /** Start then a matching finish: the user entry holds exactly the new
      record and is registered. */
  lemma StartThenFinish(p: Platform, acceptNone: bool, s: State, req: FinishRequest,
                        username: string, name: string, userId: string, challenge: string)
    requires !(username in s.database && s.database[username].registered)
    requires FinishStep(p, acceptNone, StartStep(s, username, name, userId, challenge).1, req).0 == Success(Registered)
    ensures var t := FinishStep(p, acceptNone, StartStep(s, username, name, userId, challenge).1, req).1;
      && username in t.database
      && t.database[username].registered
      && t.database[username].name == name && t.database[username].id == userId
      && |t.database[username].authenticators| == 1
      && t.session.loggedIn
  {
    var t0 := StartStep(s, username, name, userId, challenge).1;
    FinishSucceedsExactly(p, acceptNone, t0, req);
  }
}
