/**
 * The gateway's routes over the shared token registry: registration, token
 * authentication and the `host_uuid` check of a submission.
 */
module GatewayApp {
  import opened Wrappers
  import opened JsonValue
  import opened Http
  import opened GatewayTokens
  import Text

  datatype GatewayError = MissingUsername | AlreadyRegistered | InvalidJson | WrongHostUuid

  /**
   * The `host_uuid` test of `submit` on a decoded body: Python's `in` looks
   * up a key of an object, an element of a list and a substring of a string,
   * and raises on any other value; indexing a list or a string by
   * `'host_uuid'` raises as well.
   */
  function HostUuidCheck(username: string, body: Json): (r: Response<(), GatewayError>)
    ensures r.Ok? <==> body.JObj? && "host_uuid" in body.fields && body.fields["host_uuid"] == JStr(username)
    ensures r.Ok? || r == BadRequest(WrongHostUuid) || r.ServerError?
    ensures body.JObj? ==> !r.ServerError?
  {
    match body
    case JObj(fields) =>
      if "host_uuid" !in fields || fields["host_uuid"] != JStr(username) then BadRequest(WrongHostUuid) else Ok(())
    case JArr(items) =>
      if JStr("host_uuid") in items then ServerError else BadRequest(WrongHostUuid)
    case JStr(s) =>
      if Text.Contains(s, "host_uuid") then ServerError else BadRequest(WrongHostUuid)
    case _ => ServerError
  }

  class Gateway {
    /** The registry loaded when the module is imported. */
    const tokens: Tokens

    constructor (tokens: Tokens)
      ensures this.tokens == tokens
    {
      this.tokens := tokens;
    }

    /** `check_auth`: the username is registered and the password is its token. */
    predicate CheckAuth(username: string, password: string)
      reads this, tokens
      ensures CheckAuth(username, password) <==> username in tokens.tokens && tokens.tokens[username] == password
    {
      tokens.Exists(username) && Some(password) == tokens.Get(username)
    }

    predicate Admits(auth: Option<Credentials>)
      reads this, tokens
    {
      auth.Some? && CheckAuth(auth.value.username, auth.value.password)
    }

    /** `POST /register`; `token` stands for the random token `generate` draws. */
    method Register(username: Option<string>, token: string) returns (r: Response<string, GatewayError>)
      modifies tokens
      ensures username.None? || username.value == "" ==> r == BadRequest(MissingUsername)
      ensures username.Some? && username.value != "" && username.value in old(tokens.tokens)
              ==> r == BadRequest(AlreadyRegistered)
      ensures r.Ok? <==> username.Some? && username.value != "" && username.value !in old(tokens.tokens)
      ensures r.Ok? ==> r.value == token && tokens.tokens == old(tokens.tokens)[username.value := token]
                        && tokens.file == Some(tokens.tokens) && CheckAuth(username.value, token)
      ensures !r.Ok? ==> tokens.tokens == old(tokens.tokens) && tokens.file == old(tokens.file)
    {
      if username.None? || username.value == "" {
        return BadRequest(MissingUsername);
      }
      if tokens.Exists(username.value) {
        return BadRequest(AlreadyRegistered);
      }
      var t := tokens.Generate(username.value, token);
      return Ok(t);
    }

    /**
     * `POST /submit`: accepted exactly when the credentials pass and the body
     * is an object whose `host_uuid` is the authenticated username.
     */
    method Submit(auth: Option<Credentials>, body: Body) returns (r: Response<(), GatewayError>)
      ensures r.Unauthorized? <==> !Admits(auth)
      ensures Admits(auth) && body.Malformed? ==> r == BadRequest(InvalidJson)
      ensures Admits(auth) && body.Decoded? ==> r == HostUuidCheck(auth.value.username, body.value)
      ensures r.Ok? <==> Admits(auth) && body.Decoded? && body.value.JObj?
                         && "host_uuid" in body.value.fields
                         && body.value.fields["host_uuid"] == JStr(auth.value.username)
    {
      if !Admits(auth) {
        return Unauthorized;
      }
      if body.Malformed? {
        return BadRequest(InvalidJson);
      }
      return HostUuidCheck(auth.value.username, body.value);
    }
  }

  /**
   * The gateway API tests: a second registration of a name is refused, the
   * first token keeps working for a submission naming that host, and a body
   * without `host_uuid` or naming another host is refused.
   */
  method RegisterTwiceScenario(registry: Tokens, host: string, stranger: string, first: string, second: string)
    returns (firstReply: Response<string, GatewayError>, again: Response<string, GatewayError>, submitted: Response<(), GatewayError>,
             empty: Response<(), GatewayError>, wrong: Response<(), GatewayError>)
    requires host != "" && host !in registry.tokens && stranger != host
    modifies registry
    ensures firstReply == Ok(first)
    ensures again == BadRequest(AlreadyRegistered)
    ensures submitted == Ok(())
    ensures empty == BadRequest(WrongHostUuid) && wrong == BadRequest(WrongHostUuid)
  {
    var gateway := new Gateway(registry);
    firstReply := gateway.Register(Some(host), first);
    again := gateway.Register(Some(host), second);
    var auth := Some(Credentials(host, first));
    submitted := gateway.Submit(auth, Decoded(JObj(map["host_uuid" := JStr(host)])));
    empty := gateway.Submit(auth, Decoded(JObj(map[])));
    wrong := gateway.Submit(auth, Decoded(JObj(map["host_uuid" := JStr(stranger)])));
  }
}
