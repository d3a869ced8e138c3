/** The authentication gates (`authenticate`, `optionalAuth`) and the
    authorization gates (`requireAdmin`, `requireOwnershipOrAdmin`) of the
    request-gating middleware. The token verifier is an uninterpreted
    function parameter. */
module AuthGates {
  import opened Js

  /** The principal record the token verifier resolves to. */
  datatype User = User(id: JsValue, isAdmin: JsValue)

  /** What the token verifier does with a token: resolve to a user, or throw
      an error whose `message` is a string (`Some`) or `undefined` (`None`),
      as for an error created without a message. */
  datatype Verdict = Accepted(user: User) | Rejected(message: Option<string>)

  /** What a gate writes to `req.user` and `req.token`. */
  datatype Binding = Unbound | Bound(user: User, token: string)

  datatype AuthResult = AuthResult(outcome: Outcome, binding: Binding)

  const Bearer: string := "Bearer "

  const MsgNoToken: string := "Token de acesso não fornecido"
  const MsgBadFormat: string := "Formato de token inválido"
  const MsgInvalidToken: string := "Token inválido ou expirado"
  const MsgUnauthenticated: string := "Usuário não autenticado"
  const MsgNotAdmin: string := "Acesso negado. Privilégios de administrador necessários"
  const MsgNotOwner: string := "Acesso negado. Você só pode acessar seus próprios dados"

  function MsgParamRequired(paramName: string): string {
    "Parâmetro " + paramName + " é obrigatório"
  }

  // ---------------------------------------------------------------------
  // Header parsing: `authHeader.replace('Bearer ', '')`
  // ---------------------------------------------------------------------

  predicate OccursAt(s: string, pat: string, i: nat) {
    i + |pat| <= |s| && s[i..i + |pat|] == pat
  }

  /** The first position at or after `from` where `pat` occurs in `s`. */
  function IndexOf(s: string, pat: string, from: nat): (r: Option<nat>)
    ensures r.Some? ==> from <= r.value && OccursAt(s, pat, r.value)
    ensures r.Some? ==> forall j :: from <= j < r.value ==> !OccursAt(s, pat, j)
    ensures r.None? ==> forall j :: from <= j ==> !OccursAt(s, pat, j)
    decreases |s| - from
  {
    if from + |pat| > |s| then None
    else if s[from..from + |pat|] == pat then Some(from)
    else IndexOf(s, pat, from + 1)
  }

  /** `String.prototype.replace` with a string pattern and an empty
      replacement: only the first occurrence is removed, so the text either
      stays as it is or loses exactly the length of the pattern. */
  function RemoveFirst(s: string, pat: string): (r: string)
    ensures r == s || |r| + |pat| == |s|
  {
    match IndexOf(s, pat, 0)
    case None => s
    case Some(i) => s[..i] + s[i + |pat|..]
  }

  /** The token a gate extracts from a non-empty `Authorization` header: the
      header itself, or the header less the seven characters of the scheme. */
  function Token(header: string): (r: string)
    ensures r == header || |r| + |Bearer| == |header|
  {
    RemoveFirst(header, Bearer)
  }

  /** A header of the documented shape `Bearer <t>` yields exactly `t`. */
  lemma TokenOfBearerHeader(t: string)
    ensures Token(Bearer + t) == t
  {
    assert OccursAt(Bearer + t, Bearer, 0);
  }

  /** A header without `Bearer ` anywhere in it is passed on untouched: the
      gates do not check the scheme. */
  lemma TokenWithoutScheme(header: string)
    requires forall j :: !OccursAt(header, Bearer, j)
    ensures Token(header) == header
  {
  }

  /** Only the first occurrence of the scheme is removed, wherever it is. */
  lemma TokenRemovesFirstOccurrence(header: string, i: nat)
    requires OccursAt(header, Bearer, i)
    requires forall j :: 0 <= j < i ==> !OccursAt(header, Bearer, j)
    ensures Token(header) == header[..i] + header[i + |Bearer|..]
  {
    var k := IndexOf(header, Bearer, 0);
    assert k.Some?;
  }

  /** The token is empty exactly when the header is empty or is the bare
      scheme `Bearer `. */
  lemma TokenEmptyIff(header: string)
    ensures Token(header) == "" <==> header == "" || header == Bearer
  {
    match IndexOf(header, Bearer, 0)
    case None =>
    case Some(i) =>
      var r := header[..i] + header[i + |Bearer|..];
      assert |r| == |header| - |Bearer|;
      if r == "" {
        assert i == 0;
        assert header == header[0..|Bearer|];
      }
  }

  // ---------------------------------------------------------------------
  // Authentication gates
  // ---------------------------------------------------------------------

  /** `authenticate`: required-mode authentication. It either proceeds with a
      bound user or ends the request with 401 and binds nothing. */
  function Authenticate(header: Option<string>, verify: string -> Verdict): (r: AuthResult)
    ensures r.outcome == Next <==> r.binding.Bound?
    ensures r.outcome != Next ==> r.outcome.Respond? && r.outcome.status == 401 && r.outcome.extra == NoExtra
  {
    if header.None? || header.value == "" then
      AuthResult(Respond(401, MsgNoToken, NoExtra), Unbound)
    else
      var token := Token(header.value);
      if token == "" then
        AuthResult(Respond(401, MsgBadFormat, NoExtra), Unbound)
      else
        match verify(token)
        case Accepted(user) => AuthResult(Next, Bound(user, token))
        case Rejected(message) =>
          var text := if Truthy(OfString(message)) then message.value else MsgInvalidToken;
          AuthResult(Respond(401, text, NoExtra), Unbound)
  }

  /** `optionalAuth`: bind a user when possible, never block. */
  function OptionalAuth(header: Option<string>, verify: string -> Verdict): (r: AuthResult)
    ensures r.outcome == Next
  {
    if header.Some? && header.value != "" && Token(header.value) != "" then
      match verify(Token(header.value))
      case Accepted(user) => AuthResult(Next, Bound(user, Token(header.value)))
      case Rejected(_) => AuthResult(Next, Unbound)
    else
      AuthResult(Next, Unbound)
  }

  /** A missing or empty header, or one that leaves an empty token, is
      refused with 401. */
  lemma AuthenticateRejectsMissingCredential(header: Option<string>, verify: string -> Verdict)
    requires header.None? || header.value == "" || header.value == Bearer
    ensures var r := Authenticate(header, verify);
      r.binding == Unbound && r.outcome.Respond? && r.outcome.status == 401
      && r.outcome.message == (if header.None? || header.value == "" then MsgNoToken else MsgBadFormat)
  {
    if header.Some? && header.value == Bearer {
      TokenEmptyIff(header.value);
    }
  }

  /** A user is bound only when the verifier accepted the header's token,
      and then exactly the verifier's user and that token are bound. */
  lemma AuthenticateBindsVerifiedUser(header: Option<string>, verify: string -> Verdict, user: User, token: string)
    ensures Authenticate(header, verify).binding == Bound(user, token)
      <==> header.Some? && header.value != "" && token == Token(header.value)
           && token != "" && verify(token) == Accepted(user)
  {
  }

  /** A correctly shaped header whose token the verifier accepts proceeds
      with that user bound. */
  lemma AuthenticateBearerAccepted(t: string, verify: string -> Verdict, user: User)
    requires t != "" && verify(t) == Accepted(user)
    ensures Authenticate(Some(Bearer + t), verify) == AuthResult(Next, Bound(user, t))
  {
    TokenOfBearerHeader(t);
  }

  /** When the verifier rejects the token of a non-empty header, with or
      without the scheme, its own non-empty message is sent to the client;
      only an empty or undefined message is replaced. */
  lemma AuthenticateEchoesVerifierMessage(header: Option<string>, verify: string -> Verdict)
    requires header.Some? && header.value != "" && Token(header.value) != ""
    requires verify(Token(header.value)).Rejected?
    ensures var msg := verify(Token(header.value)).message;
      Authenticate(header, verify)
      == AuthResult(Respond(401, if msg.Some? && msg.value != "" then msg.value else MsgInvalidToken, NoExtra), Unbound)
  {
  }

  /** Optional mode binds exactly what required mode would have bound: a user
      only when the verifier accepts a non-empty token. */
  lemma OptionalAuthBindsLikeAuthenticate(header: Option<string>, verify: string -> Verdict)
    ensures OptionalAuth(header, verify).binding == Authenticate(header, verify).binding
  {
  }

  // ---------------------------------------------------------------------
  // Authorization gates
  // ---------------------------------------------------------------------

  /** `requireAdmin`; `user` is `req.user` (`None` when unset). It proceeds
      or refuses with 401 or 403. */
  function RequireAdmin(user: Option<User>): (r: Outcome)
    ensures r != Next ==> r.Respond? && r.status in {401, 403} && r.extra == NoExtra
  {
    if user.None? then Respond(401, MsgUnauthenticated, NoExtra)
    else if !Truthy(user.value.isAdmin) then Respond(403, MsgNotAdmin, NoExtra)
    else Next
  }

  /** The owner id a request targets: the route parameter, or the body field
      of the same name when the parameter is absent or empty. There is a
      target exactly when one of the two is truthy. */
  function TargetOwner(paramName: string, params: map<string, string>, body: map<string, JsValue>): (r: JsValue)
    ensures Truthy(r) <==> (paramName in params && params[paramName] != "") || Truthy(Get(body, paramName))
  {
    Or(if paramName in params then Str(params[paramName]) else Undefined, Get(body, paramName))
  }

  /** `requireOwnershipOrAdmin(paramName = 'userId')`. It proceeds or
      refuses with 400, 401 or 403. */
  function RequireOwnershipOrAdmin(user: Option<User>, params: map<string, string>,
                                   body: map<string, JsValue>, paramName: string := "userId"): (r: Outcome)
    ensures r != Next ==> r.Respond? && r.status in {400, 401, 403} && r.extra == NoExtra
  {
    if user.None? then Respond(401, MsgUnauthenticated, NoExtra)
    else
      var target := TargetOwner(paramName, params, body);
      if !Truthy(target) then Respond(400, MsgParamRequired(paramName), NoExtra)
      else if Truthy(user.value.isAdmin) || user.value.id == target then Next
      else Respond(403, MsgNotOwner, NoExtra)
  }

  /** The admin gate: 401 without a user, 403 for a non-admin, otherwise on. */
  lemma RequireAdminDecision(user: Option<User>)
    ensures RequireAdmin(user) == Next <==> user.Some? && Truthy(user.value.isAdmin)
    ensures user.None? ==> RequireAdmin(user) == Respond(401, MsgUnauthenticated, NoExtra)
    ensures user.Some? && !Truthy(user.value.isAdmin) ==> RequireAdmin(user) == Respond(403, MsgNotAdmin, NoExtra)
  {
  }

  /** The route parameter wins over the body field when it is non-empty;
      otherwise the body field is used. */
  lemma TargetOwnerPrefersParam(paramName: string, params: map<string, string>, body: map<string, JsValue>)
    ensures paramName in params && params[paramName] != "" ==> TargetOwner(paramName, params, body) == Str(params[paramName])
    ensures paramName !in params || params[paramName] == "" ==> TargetOwner(paramName, params, body) == Get(body, paramName)
  {
  }

  /** The ownership gate checks for a user first (401), then for a target
      (400), then lets through exactly the admins and the owner, and refuses
      everyone else with 403. */
  lemma RequireOwnershipOrAdminDecision(paramName: string, user: Option<User>,
                                        params: map<string, string>, body: map<string, JsValue>)
    ensures var r := RequireOwnershipOrAdmin(user, params, body, paramName);
      var target := TargetOwner(paramName, params, body);
      && (user.None? ==> r == Respond(401, MsgUnauthenticated, NoExtra))
      && (user.Some? && !Truthy(target) ==> r == Respond(400, MsgParamRequired(paramName), NoExtra))
      && (r == Next <==> user.Some? && Truthy(target) && (Truthy(user.value.isAdmin) || user.value.id == target))
      && (user.Some? && Truthy(target) && !Truthy(user.value.isAdmin) && user.value.id != target
          ==> r == Respond(403, MsgNotOwner, NoExtra))
  {
  }

  /** An administrator passes the ownership gate for every present target. */
  lemma AdminOverridesOwnership(paramName: string, user: User,
                                params: map<string, string>, body: map<string, JsValue>)
    requires Truthy(user.isAdmin) && Truthy(TargetOwner(paramName, params, body))
    ensures RequireOwnershipOrAdmin(Some(user), params, body, paramName) == Next
  {
  }

  /** The worked example, with the default parameter name `userId`: user
      `u1`, not an administrator, may reach `/users/u1` but not `/users/u2`. */
  lemma OwnershipExample()
    ensures var u1 := User(Str("u1"), Bool(false));
      && RequireOwnershipOrAdmin(Some(u1), map["userId" := "u1"], map[]) == Next
      && RequireOwnershipOrAdmin(Some(u1), map["userId" := "u2"], map[]) == Respond(403, MsgNotOwner, NoExtra)
  {
  }
}
