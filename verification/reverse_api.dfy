/**
 * The direct-API script's `main`: credentials from the environment, a
 * login-type check, a token exchange, the thread listing, then one detail
 * fetch per listed link. The two login endpoints are given as their replies.
 */
module ReverseApi {
  import opened Wrappers
  import opened ThreadLinks
  import opened Paging
  import opened ThreadExtract

  /** A JSON object reply of a login endpoint, or `None` when the request raised. */
  type JsonReply = Option<map<string, string>>

  /** `not v` is false: the variable is set and not empty. */
  predicate Present(v: Option<string>)
  {
    v.Some? && v.value != ""
  }

  /** `login_result and login_result.get("type") == "password"`. */
  predicate IsPasswordLogin(reply: JsonReply)
  {
    reply.Some? && "type" in reply.value && reply.value["type"] == "password"
  }

  /** The token of a token reply, when `token_result and 'token' in token_result`. */
  function TokenOf(reply: JsonReply): Option<string>
  {
    if reply.Some? && "token" in reply.value then Some(reply.value["token"]) else None
  }

  /** How a run of `main` ends. */
  datatype DirectRun =
    | MissingCredentials
    | NotPasswordLogin
    | NoToken
    | NoThreadLinks
    | Processed(threads: seq<ThreadRecord>)

  method RunDirect(email: Option<string>, password: Option<string>,
                   loginType: JsonReply, tokenReply: JsonReply,
                   server: Server, fetch: (string, string) -> Option<RawThread>)
    returns (run: DirectRun, loginChecked: bool, tokenRequested: bool, pageOffsets: seq<nat>)
    ensures loginChecked <==> Present(email) && Present(password)
    ensures run == MissingCredentials <==> !loginChecked
    ensures tokenRequested <==> loginChecked && IsPasswordLogin(loginType)
    ensures run == NotPasswordLogin <==> loginChecked && !tokenRequested
    ensures run == NoToken <==> tokenRequested && TokenOf(tokenReply).None?
    ensures pageOffsets != [] <==> tokenRequested && TokenOf(tokenReply).Some?
    ensures pageOffsets != [] ==> |pageOffsets| == RequestCount(server)
    ensures run == NoThreadLinks <==> pageOffsets != [] && Collected(server, DefaultCourse) == []
    ensures run.Processed? <==> tokenRequested && TokenOf(tokenReply).Some? && Collected(server, DefaultCourse) != []
    ensures run.Processed? ==>
      var ok := Fetched(Collected(server, DefaultCourse), WithToken(fetch, TokenOf(tokenReply).value));
      |run.threads| == |ok| && forall k :: 0 <= k < |ok| ==> IsExtractionOf(run.threads[k], ok[k])
  {
    loginChecked, tokenRequested, pageOffsets := false, false, [];
    if !Present(email) || !Present(password) {
      return MissingCredentials, loginChecked, tokenRequested, pageOffsets;
    }
    loginChecked := true;
    if !IsPasswordLogin(loginType) {
      return NotPasswordLogin, loginChecked, tokenRequested, pageOffsets;
    }
    tokenRequested := true;
    var token := TokenOf(tokenReply);
    if token.None? {
      return NoToken, loginChecked, tokenRequested, pageOffsets;
    }
    var links;
    links, pageOffsets := GetAllThreadLinks(server, DefaultCourse);
    if links == [] {
      return NoThreadLinks, loginChecked, tokenRequested, pageOffsets;
    }
    var processed, _ := CollectThreadData(links, WithToken(fetch, token.value));
    run := Processed(processed);
  }
}
