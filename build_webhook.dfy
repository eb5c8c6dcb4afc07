/** The `POST /build` webhook: the shared-secret check and the production
    build it triggers. The build pipeline is not modelled; its outcome is an
    input. */
module BuildWebhook {
  import opened Wrappers

  /** What the build pipeline reports to its callback: no error, or an error
      carrying its message. */
  datatype BuildOutcome = Ok | Err(message: string)

  /** The handler's observable behaviour: the HTTP status, the reason it logs
      when it rejects the request, and whether the pipeline was run. */
  datatype BuildResponse = BuildResponse(status: int, reason: Option<string>, built: bool)

  const MismatchingSecret: string := "mismatching secret"
  const MismatchingApiUrl: string := "mismatching api url"
  const CompilationError: string := "compilation error"

  /** A rejection: status 400, with the reason only logged. */
  function Reject(reason: string, built: bool): BuildResponse
  {
    BuildResponse(400, Some(reason), built)
  }

  /** Both received fields equal the configured ones (strict equality; `None`
      stands for an `undefined` field). */
  predicate Authenticated(configSecret: Option<string>, configUrl: Option<string>,
                          bodySecret: Option<string>, bodyApiUrl: Option<string>): (ok: bool)
    ensures ok ==> (bodySecret.None? <==> configSecret.None?)
    ensures ok ==> (bodyApiUrl.None? <==> configUrl.None?)
  {
    configSecret == bodySecret && configUrl == bodyApiUrl
  }

  /** The handler of `POST /build`: the secret is compared first, then the API
      URL; only then does the pipeline run, and its outcome decides between
      200 and 400. */
  function HandleBuild(configSecret: Option<string>, configUrl: Option<string>,
                       bodySecret: Option<string>, bodyApiUrl: Option<string>,
                       outcome: BuildOutcome): (r: BuildResponse)
    ensures r.built <==> Authenticated(configSecret, configUrl, bodySecret, bodyApiUrl)
    ensures r.status == 200 <==> r.built && outcome.Ok?
    ensures r.status == 200 || r.status == 400
    ensures r.status == 200 <==> r.reason.None?
    ensures configSecret != bodySecret ==> r.reason == Some(MismatchingSecret)
    ensures configSecret == bodySecret && configUrl != bodyApiUrl ==> r.reason == Some(MismatchingApiUrl)
    ensures r.built && outcome.Err? ==> r.reason == Some(CompilationError)
  {
    if configSecret != bodySecret then Reject(MismatchingSecret, false)
    else if configUrl != bodyApiUrl then Reject(MismatchingApiUrl, false)
    else match outcome
      case Err(_) => Reject(CompilationError, true)
      case Ok => BuildResponse(200, None, true)
  }

  /** A request that fails authentication gets the same answer whatever the
      pipeline would have reported: the pipeline is not consulted. */
  lemma RejectedRequestIgnoresPipeline(configSecret: Option<string>, configUrl: Option<string>,
                                       bodySecret: Option<string>, bodyApiUrl: Option<string>,
                                       o1: BuildOutcome, o2: BuildOutcome)
    requires !Authenticated(configSecret, configUrl, bodySecret, bodyApiUrl)
    ensures HandleBuild(configSecret, configUrl, bodySecret, bodyApiUrl, o1)
         == HandleBuild(configSecret, configUrl, bodySecret, bodyApiUrl, o2)
  {
  }

  /** The caller cannot tell which field was wrong: every failed
      authentication answers with the same status. */
  lemma MismatchedFieldNotDisclosed(configSecret: Option<string>, configUrl: Option<string>,
                                    s1: Option<string>, u1: Option<string>,
                                    s2: Option<string>, u2: Option<string>,
                                    o1: BuildOutcome, o2: BuildOutcome)
    requires !Authenticated(configSecret, configUrl, s1, u1)
    requires !Authenticated(configSecret, configUrl, s2, u2)
    ensures HandleBuild(configSecret, configUrl, s1, u1, o1).status
         == HandleBuild(configSecret, configUrl, s2, u2, o2).status == 400
  {
  }

  /** The initial build the server posts to itself at startup carries the
      configured URL and secret, so it always passes authentication. */
  lemma InitialBuildAuthenticated(configSecret: Option<string>, configUrl: Option<string>,
                                  outcome: BuildOutcome)
    ensures HandleBuild(configSecret, configUrl, configSecret, configUrl, outcome).built
  {
  }

  /** With no secret configured, a request without a secret passes the check:
      `undefined === undefined`. */
  lemma UnsetSecretAcceptsMissingSecret(configUrl: Option<string>)
    ensures HandleBuild(None, configUrl, None, configUrl, Ok).status == 200
  {
  }
}
