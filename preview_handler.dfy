/** The `GET /preview` handler after its build: how the build's outcome, the
    Prismic API lookup and the preview-session lookup become the response.
    The preview key is an opaque parameter; the lookups' outcomes are inputs. */
module PreviewHandler {
  import opened Wrappers
  import opened Substitution
  import opened ContentRewriter
  import opened BuildWebhook

  /** What `Prismic.api` reports: a ready API, or an error. */
  datatype ApiOutcome = ApiReady | ApiFailed(error: string)

  /** What `previewSession` reports: an error, if any, and the redirect URL it
      passes along (possibly none). */
  datatype SessionOutcome = SessionOutcome(error: Option<string>, redirectUrl: Option<string>)

  /** The preview cookie set on the response. */
  datatype Cookie = Cookie(name: string, value: string, path: string, maxAge: int, httpOnly: bool)

  /** A bare status, or a redirect that sets the preview cookie. */
  datatype PreviewResponse =
    | StatusOnly(status: int)
    | Redirect(cookie: Cookie, location: Option<string>)

  const PreviewCookieName: string := "io.prismic.preview"
  const NotFoundPrefix: string := "Unexpected status code [404]"

  /** The cookie that hands the preview session to the built pages. */
  function PreviewCookie(token: string, key: string, previewAge: int): (c: Cookie)
    ensures c.name == PreviewCookieName && c.value == token
    ensures c.maxAge == previewAge && !c.httpOnly
    ensures c.path + "/" == "/" + MountInsertion(key)
  {
    Cookie(PreviewCookieName, token, PreviewPath(key), previewAge, false)
  }

  /** The response to a preview request. */
  function HandlePreview(token: string, key: string, previewAge: int,
                         build: BuildOutcome, api: ApiOutcome, session: SessionOutcome): (r: PreviewResponse)
    ensures r == StatusOnly(404) <==> build.Err? && StartsWith(build.message, NotFoundPrefix)
    ensures r == StatusOnly(500) <==>
              (build.Err? && !StartsWith(build.message, NotFoundPrefix)) || (build.Ok? && api.ApiFailed?)
    ensures r.Redirect? <==> build.Ok? && api.ApiReady?
    ensures r.Redirect? ==> r.cookie.name == PreviewCookieName && r.cookie.value == token
    ensures r.Redirect? ==> r.cookie.path == "/builds/preview/" + key
    ensures r.Redirect? ==> r.cookie.maxAge == previewAge && !r.cookie.httpOnly
    ensures r.Redirect? ==> r.location == session.redirectUrl
  {
    match build
    case Err(message) =>
      if StartsWith(message, NotFoundPrefix) then StatusOnly(404) else StatusOnly(500)
    case Ok =>
      match api
      case ApiFailed(_) => StatusOnly(500)
      case ApiReady => Redirect(PreviewCookie(token, key, previewAge), session.redirectUrl)
  }

  /** A failed session lookup is only logged: the response is the same as
      when the lookup succeeds with the same URL. */
  lemma SessionErrorIsSoft(token: string, key: string, previewAge: int,
                           build: BuildOutcome, api: ApiOutcome,
                           error: string, url: Option<string>)
    ensures HandlePreview(token, key, previewAge, build, api, SessionOutcome(Some(error), url))
         == HandlePreview(token, key, previewAge, build, api, SessionOutcome(None, url))
  {
  }

  /** A failed build answers without consulting Prismic. */
  lemma FailedBuildIgnoresPrismic(token: string, key: string, previewAge: int, message: string,
                                  a1: ApiOutcome, s1: SessionOutcome, a2: ApiOutcome, s2: SessionOutcome)
    ensures HandlePreview(token, key, previewAge, Err(message), a1, s1)
         == HandlePreview(token, key, previewAge, Err(message), a2, s2)
  {
  }

  /** Every link the rewriter moved under the preview mount lies in the
      cookie's scope: the link's target starts with the cookie path and a
      slash, so the browser sends the preview cookie with it. */
  lemma RewrittenLinksInCookieScope(html: string, token: string, key: string, previewAge: int,
                                    session: SessionOutcome)
    requires 'h' !in key
    ensures var r := HandlePreview(token, key, previewAge, Ok, ApiReady, session);
            var out := RewriteLinks(html, key);
            forall i :: OccursAt(out, HrefPattern, i) ==>
              StartsWith(out[i + |HrefPattern| - 1..], r.cookie.path + "/")
  {
    var out := RewriteLinks(html, key);
    var path := HandlePreview(token, key, previewAge, Ok, ApiReady, session).cookie.path;
    LinksPointUnderMount(html, key);
    assert path + "/" == "/" + MountInsertion(key);
    forall i | OccursAt(out, HrefPattern, i)
      ensures StartsWith(out[i + |HrefPattern| - 1..], path + "/")
    {
      var j := i + |HrefPattern| - 1;
      assert out[i..][|HrefPattern| - 1] == HrefPattern[|HrefPattern| - 1] == '/';
      assert out[j..] == [out[j]] + out[j + 1..];
      StartsWithCons(out[j..], path + "/");
    }
  }
}
