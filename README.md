# Preview and build server of metalsmith-prismic-server, in Dafny

This project models the decision and text-rewriting logic of the production
server in `src/prod-server.js`. That server rebuilds a static site from the
Prismic CMS when a webhook arrives. It also builds short-lived previews of
draft content and serves them under `/builds/preview/<key>/`.

The model covers four parts. Each one becomes deterministic once the clock,
the directory listing and the outcomes of external calls are passed in as
parameters.

- **Build webhook** (`build_webhook.dfy`, module `BuildWebhook`). The handler
  of `POST /build` is a pure function. Its inputs are the configured secret
  and API URL, the secret and API URL in the request body, and the outcome
  the build pipeline would report. Its result is the status, the logged
  rejection reason and whether the pipeline ran. The secret is compared
  before the URL. Strict equality is kept: `None` stands for JavaScript's
  `undefined`, and two `undefined` values are equal.
- **Content rewriter** (`content_rewriter.dfy`, module `ContentRewriter`, on
  top of `substitution.dfy`, module `Substitution`). The preview build
  registers two `replace` plugins. Each one is a global literal substitution
  (`ReplaceAll`), applied only to files the HTML filter accepts:
  `href="/` becomes `href="/builds/preview/<key>/`, then each `</body>`
  becomes the Prismic script tag followed by `</body>`. The script tag is
  spelled exactly as in its template literal, newlines included. The
  filter is an abstract predicate on file names.
- **Preview response** (`preview_handler.dfy`, module `PreviewHandler`). This
  maps three outcomes to a response: the build's (404 or 500), the Prismic
  API lookup's (500), and the preview-session lookup's (an error there is
  only logged). A successful response sets the `io.prismic.preview` cookie
  and redirects.
- **Expiry sweeper** (`expiry_sweeper.dfy`, module `ExpirySweeper`). The cache
  root is a class holding a map from preview name to last-modified time. One
  tick is a method that loops over the listed names and deletes the expired
  ones in place. It is proved equal to the pure filter `Unexpired`. The tick
  period is `previewAge / 2`.

`wrappers.dfy` holds the `Option` type.

The preview key is an opaque string parameter. The code does not hash the
token: `sha1.digest(token)` takes the token as an output encoding, and it
reuses one module-level hash object. So no property of the key as a digest
is claimed.

The webhook handler and the two filters are modelled as the code behaves,
including where that may be unexpected:

- One might expect an unset secret to reject every webhook call. In the
  code, a request that also carries no secret passes, because
  `undefined === undefined`. `UnsetSecretAcceptsMissingSecret` states this.
- The script has no root-relative link, and the filters commute whenever
  the key has no `<` (`FiltersCommute`). A key that merely avoids both
  patterns is not enough (`LtKeyBreaksCommutation`).
- The link filter rewrites every `href="/` marker, including the start of a
  protocol-relative link `href="//host/x`, which then points into the
  preview build (`ProtocolRelativeLinkRewritten`).

The sweeper is the exception. As written, its first tick throws (see
"## Left out"), so it is modelled after its evident intent.

## Model

| member | source | states |
|---|---|---|
| BuildWebhook.Authenticated | src/prod-server.js:53-55 | a request is authenticated when its secret and its API URL both strictly equal the configured ones; so an unset configured value matches only an absent field |
| BuildWebhook.HandleBuild | src/prod-server.js:51-69 | the pipeline runs iff both secret and API URL equal the configured values; 200 iff it ran and reported no error, 400 otherwise; a secret mismatch is logged as "mismatching secret" whatever the URL; a URL mismatch with the right secret as "mismatching api url"; a build error as "compilation error" |
| BuildWebhook.RejectedRequestIgnoresPipeline | src/prod-server.js:53-58 | a request that fails authentication gets the same response whatever the pipeline would report, so the pipeline is never consulted |
| BuildWebhook.MismatchedFieldNotDisclosed | src/prod-server.js:42-57 | every failed authentication answers 400, so the caller cannot tell which field was wrong |
| BuildWebhook.InitialBuildAuthenticated | src/prod-server.js:33-39 | the startup self-request, which carries the configured URL and secret, always runs the build |
| BuildWebhook.UnsetSecretAcceptsMissingSecret | src/prod-server.js:53-57 | with no configured secret, a request without a secret and with the configured URL is accepted and built |
| Substitution.ReplaceAll | src/prod-server.js:100-109 | the left-to-right, non-overlapping global literal replacement; it returns its input when the scan finds no match, and when the replacement equals the pattern |
| ContentRewriter.RewriteLinks | src/prod-server.js:100-104 | the link filter, `href="/` to `href="/builds/preview/<key>/`; it changes the page iff the page has an `href="/` marker |
| ContentRewriter.InjectScript | src/prod-server.js:105-109 | the script filter, `</body>` to the script plus `</body>`; it adds the script's length once per `</body>`, and changes the page iff the page has one |
| ContentRewriter.RewriteHtml | src/prod-server.js:94-109 | the link filter, then the script filter; a page comes out unchanged iff it has neither an `href="/` marker nor a `</body>` |
| ContentRewriter.PreviewPlugins | src/prod-server.js:94-109 | the two plugin passes over the build's files keep the file names and leave non-HTML files unchanged |
| ContentRewriter.ReplacePlugin | src/prod-server.js:100-109 | a plugin pass keeps the set of file names and leaves every file the HTML filter rejects unchanged |
| ContentRewriter.PreviewPluginsPerFile | src/prod-server.js:92-109 | the two plugins rewrite each HTML file as the link filter followed by the script filter, and leave other files unchanged |
| ContentRewriter.HrefReplacementInserts | src/prod-server.js:100-104 | the link replacement is the marker `href="/` followed by `builds/preview/<key>/` |
| ContentRewriter.RewriteLinksUnchangedWithoutLinks | src/prod-server.js:100-104 | text with no `href="/` passes the link filter unchanged |
| ContentRewriter.RewriteLinksLength | src/prod-server.js:100-104 | the link filter adds the length of `builds/preview/<key>/` once per non-overlapping `href="/` |
| ContentRewriter.LinksPointUnderMount | src/prod-server.js:100-104 | for a key without `h`, every `href="/` in the output is followed by `builds/preview/<key>/` |
| ContentRewriter.ScriptProtected | src/prod-server.js:13-16 | no `</body>` can begin inside the Prismic script, whatever follows it |
| ContentRewriter.ScriptHasNoH | src/prod-server.js:13-16 | the script followed by `</body>` contains no `h`, so no `href="/` can begin inside it |
| ContentRewriter.InjectScriptUnchangedWithoutBody | src/prod-server.js:105-109 | text with no `</body>` passes the script filter unchanged |
| ContentRewriter.InjectScriptKeepsBodyCount | src/prod-server.js:105-109 | the script filter keeps the number of `</body>` tags |
| ContentRewriter.ScriptPrecedesEveryBodyClose | src/prod-server.js:105-109 | after the script filter, every `</body>` is immediately preceded by the Prismic script |
| ContentRewriter.FiltersCommute | src/prod-server.js:100-109 | for a key without `<`, applying the script filter first gives the same text as the registered order |
| ContentRewriter.LtKeyBreaksCommutation | src/prod-server.js:100-109 | with the key `<`, which contains neither pattern, the two orders differ on `href="/body>`, so avoiding both patterns does not make the filters commute |
| ContentRewriter.MarkerCountsArePositions | src/prod-server.js:100-109 | the scan's counts of `href="/` and `</body>` equal the numbers of positions where they occur |
| ContentRewriter.ProtocolRelativeLinkRewritten | src/prod-server.js:100-104 | a protocol-relative `href="//host` (host without `h`) becomes `href="/builds/preview/<key>//host`, a link into the preview build |
| ContentRewriter.PluginOrderIrrelevant | src/prod-server.js:94-109 | for a key without `<`, registering the two plugins in the other order builds the same files |
| Substitution.LengthAfterReplace | src/prod-server.js:100-109 | a global substitution changes the length by the replacement's length minus the pattern's, once per match |
| Substitution.CountIsOccurrences | src/prod-server.js:100-109 | for a pattern whose first character does not recur in it, the scan's match count equals the number of positions where the pattern occurs |
| Substitution.CountZeroIffAbsent | src/prod-server.js:100-109 | the scan finds no match iff the pattern occurs nowhere in the text |
| Substitution.UnchangedWhenAbsent | src/prod-server.js:100-109 | text in which the pattern does not occur is returned unchanged |
| Substitution.FollowedByInsertion | src/prod-server.js:100-104 | when the replacement is the pattern plus an insertion, every occurrence in the output is followed by the insertion |
| Substitution.PrecededByInsertion | src/prod-server.js:105-109 | when the replacement is a protected insertion plus the pattern, every occurrence in the output is preceded by the insertion |
| Substitution.InsertionKeepsCount | src/prod-server.js:105-109 | inserting protected text before each match keeps the number of matches |
| Substitution.ReplacementsCommute | src/prod-server.js:100-109 | two substitutions commute when neither can create, hide or overlap a match of the other |
| PreviewHandler.PreviewCookie | src/prod-server.js:134-138 | the cookie `io.prismic.preview` holds the token, lives `previewAge` ms, is readable by scripts, and its path plus `/` is exactly the mount the link filter inserts |
| PreviewHandler.HandlePreview | src/prod-server.js:110-143 | 404 iff the build error message starts with `Unexpected status code [404]`; 500 iff another build error, or an API error after a good build; otherwise a redirect to the session's URL that sets cookie `io.prismic.preview` = token, path `/builds/preview/<key>`, maxAge = previewAge, httpOnly false |
| PreviewHandler.SessionErrorIsSoft | src/prod-server.js:130-139 | a session-lookup error changes nothing: the cookie is still set and the redirect still issued |
| PreviewHandler.FailedBuildIgnoresPrismic | src/prod-server.js:110-118 | after a failed build the response does not depend on the Prismic API or session outcomes |
| PreviewHandler.RewrittenLinksInCookieScope | src/prod-server.js:134-138 | for a key without `h`, every rewritten link's target starts with the cookie path plus `/`, so the cookie reaches the built pages |
| ExpirySweeper.Expired | src/prod-server.js:153 | a preview is expired when its age at the sweep, `now - mtime`, strictly exceeds `previewAge` |
| ExpirySweeper.SweepInterval | src/prod-server.js:85 | the tick period is half the lifetime, rounded down: twice it lies within one of `previewAge`, and it is positive from `previewAge` 2 on |
| ExpirySweeper.Unexpired | src/prod-server.js:149-158 | a sweep keeps exactly the entries with `mtime >= now - previewAge`, with their times unchanged |
| ExpirySweeper.PreviewRoot.RemoveExpiredPreviews | src/prod-server.js:149-158 | the loop leaves exactly `Unexpired(old entries)` and returns the names it removed |
| ExpirySweeper.BoundaryEntryKept | src/prod-server.js:153 | the comparison is strict: an entry exactly `previewAge` old is kept |
| ExpirySweeper.SweepAroundLifetime | src/prod-server.js:153 | an entry modified at t is removed by a sweep at t + previewAge + e and kept by one at t + previewAge - e, for e > 0 |
| ExpirySweeper.SweepIdempotent | src/prod-server.js:149-158 | a second sweep at the same time removes nothing more |
| ExpirySweeper.LaterSweepKeepsLess | src/prod-server.js:153 | a later sweep keeps no entry an earlier one removed |
| ExpirySweeper.RemovedWithinOneInterval | src/prod-server.js:76-86 | with ticks every `previewAge / 2` after start, an entry modified at or after start (not one left from before the ticks began) is removed by a tick at most one interval after it expires |
| ExpirySweeper.DefaultLifetimeBound | src/config.js:37 | with the default one-hour lifetime, a preview modified at or after start is removed by a half-hourly tick at most 90 minutes after its last modification |

## Left out

- Express setup, JSON body parsing, static serving under `/builds`, `app.listen` and the startup self-request are HTTP plumbing. The self-request appears only through `InitialBuildAuthenticated`.
- The metalsmith build pipeline is external. Its outcome is an input, `Ok` or `Err(message)`.
- The internals of `metalsmith-replace` are not part of this model. `replace` is modelled as literal global substitution, and `filenameExtensionFilter('html')` as an arbitrary predicate on file names.
- Substitution.ReplaceAll: `$` patterns in the replacement (`$&`, `` $` ``, `$'`, `$$`) are not modelled. JavaScript expands them, and the link replacement embeds the key, so the link lemmas hold as stated only for keys without `$`. A hexadecimal digest has none.
- SHA-1: the key is an opaque parameter. Determinism and collision resistance of the key are not claimed, because the code does not hash the token.
- The Prismic client is a foreign call, and `Prismic` is never imported in the file. The outcomes of `Prismic.api` and `previewSession` are inputs. What happens when `Prismic` is undefined is not modelled.
- PreviewHandler.HandlePreview: the redirect location is passed through as given, possibly none. What Express does with `res.redirect(undefined)` is not modelled. The token is a string, so a missing `token` query parameter is not modelled. A build error is assumed to carry a string message.
- BuildWebhook.HandleBuild: body fields are either a string or `undefined`. JSON numbers, objects or `null` in `secret` or `apiUrl` are not modelled. Console logging is dropped except for the rejection reason.
- ExpirySweeper.PreviewRoot.RemoveExpiredPreviews: the code calls `Date.now()` inside the `forEach`, once per entry, so entries examined later are compared against a later time. The model reads the clock once per sweep. An entry at the boundary that the code examines late may be removed by the code and kept by the model.
- The sweeper's file-system and clock calls are parameters: a name-to-mtime map, `now` and `previewAge`. The code calls `fs.readDirSync` (misspelled), which is undefined, so the first tick throws a `TypeError` inside the `setInterval` callback. Nothing catches it, so the server process exits `previewAge / 2` ms after start. The code also reads `config`, which is not in scope in `removeExpiredPreviews`. Its removal uses the asynchronous, non-recursive `fs.rmdir`. The model follows the evident intent: every expired entry is removed at once and for good.
- ExpirySweeper.SweepInterval: Node replaces a `setInterval` delay above 2147483647 ms or below 1 ms with 1 ms, so for `previewAge` of 2^32 ms or more, or below 2, the code ticks every millisecond. The model keeps `previewAge / 2`.
- ExpirySweeper.RemovedWithinOneInterval: ticks fall at exact multiples of the integer `previewAge / 2`. JavaScript keeps the fractional half for an odd `previewAge`. Timer drift, `setInterval` and the module-level `previewCleanupInterval` handle are not modelled.
- Concurrency: races between the sweeper and rebuilds, and between concurrent builds of one key, cannot be expressed in this sequential model.
- Configuration: only `previewAge = 3600000` is used from `src/config.js`. The `Object.assign` merge of user configuration over the defaults is not modelled.
- The preview build's destination directory and the build's file output are not modelled. Only the rewriting of file contents is.
