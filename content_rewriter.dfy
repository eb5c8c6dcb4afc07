/** The content rewriter of the preview build: two global literal substitutions
    applied, in this order, to every file the HTML filter accepts. The first
    moves every `href="/` marker (a root-relative link, or the start of a
    protocol-relative `href="//host/...` one) under the preview's mount path, the second
    injects the Prismic toolbar script before each closing body tag. */
module ContentRewriter {
  import opened Substitution

  /** The link marker the first filter rewrites. It matches root-relative
      links and, equally, protocol-relative ones. */
  const HrefPattern: string := "href=\"/"

  /** The closing body tag. */
  const BodyClose: string := "</body>"

  /* The Prismic script tag, assembled from the lines of its template
     literal; every line break in it is a newline character. */
  const ScriptOpen: string := "<script async\n"
  const ScriptType: string := "           type=\"text/javascript\"\n"
  const ScriptSrcHost: string := "           src=\"//static.cdn.prismic.io/"
  const ScriptSrcFile: string := "prismic.min.js\">"
  const ScriptClose: string := "</script>\n"
  const PrismicScript: string := ScriptOpen + ScriptType + ScriptSrcHost + ScriptSrcFile + ScriptClose

  /** The path under which a preview build is served, and the cookie's scope. */
  function PreviewPath(key: string): string
  {
    "/builds/preview/" + key
  }

  /** What each link marker becomes. */
  function HrefReplacement(key: string): string
  {
    "href=\"" + PreviewPath(key) + "/"
  }

  /** The text the link filter inserts after each marker. */
  function MountInsertion(key: string): string
  {
    "builds/preview/" + key + "/"
  }

  /** The first filter: every link marker moves under the preview mount. */
  function RewriteLinks(html: string, key: string): (out: string)
    ensures out == html <==> Count(html, HrefPattern) == 0
  {
    LengthAfterReplace(html, HrefPattern, HrefReplacement(key));
    HrefReplacementInserts(key);
    ReplaceAll(html, HrefPattern, HrefReplacement(key))
  }

  /** The second filter: the script goes in front of every closing body tag. */
  function InjectScript(html: string): (out: string)
    ensures |out| == |html| + Count(html, BodyClose) * |PrismicScript|
    ensures out == html <==> Count(html, BodyClose) == 0
  {
    LengthAfterReplace(html, BodyClose, PrismicScript + BodyClose);
    ReplaceAll(html, BodyClose, PrismicScript + BodyClose)
  }

  /** Both filters in the order the build registers them. */
  function RewriteHtml(html: string, key: string): (out: string)
    ensures out == html <==> Count(html, HrefPattern) == 0 && Count(html, BodyClose) == 0
  {
    RewriteHtmlIdentity(html, key);
    InjectScript(RewriteLinks(html, key))
  }

  /** Helper of RewriteHtml: a page comes out of both filters unchanged
      exactly when it has neither a link marker nor a closing body
      tag. */
  lemma RewriteHtmlIdentity(html: string, key: string)
    ensures InjectScript(RewriteLinks(html, key)) == html <==>
            Count(html, HrefPattern) == 0 && Count(html, BodyClose) == 0
  {
    var linked := RewriteLinks(html, key);
    if Count(html, HrefPattern) != 0 {
      LinksLengthen(html, key);
      ProductBounds(Count(linked, BodyClose), |PrismicScript|);
    } else {
      assert linked == html;
    }
  }

  /** Helper of RewriteHtmlIdentity: a page with a link marker grows
      under the first filter. */
  lemma LinksLengthen(html: string, key: string)
    requires Count(html, HrefPattern) != 0
    ensures |RewriteLinks(html, key)| > |html|
  {
    var c := Count(html, HrefPattern);
    var m := |MountInsertion(key)|;
    RewriteLinksLength(html, key);
    assert m > 0;
    ProductBounds(c, m);
  }

  /** Arithmetic helper: a count times a length is never negative, and a
      positive count times a length is at least the length. */
  lemma ProductBounds(c: nat, m: nat)
    ensures c * m >= 0
    ensures c >= 1 ==> c * m >= m
  {
  }

  /** One `replace` plugin pass over the build's files: files the HTML filter
      accepts are rewritten, every other file passes through untouched. */
  function ReplacePlugin(files: map<string, string>, pat: string, rep: string,
                         isHtml: string -> bool): (out: map<string, string>)
    requires pat != []
    ensures out.Keys == files.Keys
    ensures forall name :: name in files && !isHtml(name) ==> out[name] == files[name]
  {
    map name | name in files :: if isHtml(name) then ReplaceAll(files[name], pat, rep) else files[name]
  }

  /** The two plugins of a preview build, links first, then the script. */
  function PreviewPlugins(files: map<string, string>, key: string,
                          isHtml: string -> bool): (out: map<string, string>)
    ensures out.Keys == files.Keys
    ensures forall name :: name in files && !isHtml(name) ==> out[name] == files[name]
  {
    ReplacePlugin(ReplacePlugin(files, HrefPattern, HrefReplacement(key), isHtml),
                  BodyClose, PrismicScript + BodyClose, isHtml)
  }

  /** The link replacement is the marker followed by the mount insertion. */
  lemma HrefReplacementInserts(key: string)
    ensures HrefReplacement(key) == HrefPattern + MountInsertion(key)
  {
    assert "href=\"" + "/builds/preview/" == HrefPattern + "builds/preview/";
  }

  /** The closing body tag cannot begin anywhere inside the script, whatever
      follows it. */
  lemma ScriptProtected()
    ensures NoMatchStartsIn(PrismicScript, BodyClose)
    ensures PrismicScript != [] && PrismicScript[0] == '<'
  {
    assert ScriptOpen[1..] == "script async\n";
    MismatchTransparent(ScriptOpen, BodyClose, 1);
    FreeTransparent(ScriptType, BodyClose);
    FreeTransparent(ScriptSrcHost, BodyClose);
    FreeTransparent(ScriptSrcFile, BodyClose);
    assert ScriptClose[1..] == "/script>\n";
    MismatchTransparent(ScriptClose, BodyClose, 2);
    TransparentConcat(ScriptOpen, ScriptType, BodyClose);
    TransparentConcat(ScriptOpen + ScriptType, ScriptSrcHost, BodyClose);
    TransparentConcat(ScriptOpen + ScriptType + ScriptSrcHost, ScriptSrcFile, BodyClose);
    TransparentConcat(ScriptOpen + ScriptType + ScriptSrcHost + ScriptSrcFile, ScriptClose, BodyClose);
  }

  /** The script contains no `h`, so no link marker can begin inside it. */
  lemma ScriptHasNoH()
    ensures 'h' !in PrismicScript + BodyClose
  {
    assert 'h' !in ScriptOpen && 'h' !in ScriptType && 'h' !in ScriptSrcHost;
    assert 'h' !in ScriptSrcFile && 'h' !in ScriptClose && 'h' !in BodyClose;
  }

  /** Text without a link marker passes the first filter unchanged. */
  lemma RewriteLinksUnchangedWithoutLinks(html: string, key: string)
    requires forall i :: !OccursAt(html, HrefPattern, i)
    ensures RewriteLinks(html, key) == html
  {
    UnchangedWhenAbsent(html, HrefPattern, HrefReplacement(key));
  }

  /** The first filter lengthens the text by the mount insertion once per
      link marker. */
  lemma RewriteLinksLength(html: string, key: string)
    ensures |RewriteLinks(html, key)| == |html| + Count(html, HrefPattern) * |MountInsertion(key)|
  {
    LengthAfterReplace(html, HrefPattern, HrefReplacement(key));
    HrefReplacementInserts(key);
  }

  /** Neither marker can overlap itself, so the counts in the length and
      body-count lemmas are the numbers of positions where the markers
      occur. */
  lemma MarkerCountsArePositions(html: string)
    ensures Count(html, HrefPattern) == Occurrences(html, HrefPattern)
    ensures Count(html, BodyClose) == Occurrences(html, BodyClose)
  {
    assert HrefPattern[1..] == "ref=\"/";
    assert BodyClose[1..] == "/body>";
    CountIsOccurrences(html, HrefPattern);
    CountIsOccurrences(html, BodyClose);
  }

  /** A protocol-relative link also starts with the marker, and the filter
      breaks it: `href="//host/x` becomes `href="/builds/preview/<key>//host/x`,
      a link into the preview build instead of to the other host. */
  lemma ProtocolRelativeLinkRewritten(host: string, key: string)
    requires 'h' !in host
    ensures RewriteLinks(HrefPattern + "/" + host, key) == HrefReplacement(key) + "/" + host
  {
    var tail := "/" + host;
    MarkerFreeUnchanged(tail, HrefReplacement(key));
    LeadingMarkerRewritten(tail, HrefReplacement(key));
    assert HrefPattern + "/" + host == HrefPattern + tail;
    assert HrefReplacement(key) + "/" + host == HrefReplacement(key) + tail;
  }

  /** Helper of ProtocolRelativeLinkRewritten: text without `h` holds no
      link marker. */
  lemma MarkerFreeUnchanged(t: string, rep: string)
    requires 'h' !in t
    ensures ReplaceAll(t, HrefPattern, rep) == t
  {
    FreeTransparent(t, HrefPattern);
    SkipTransparent(t, [], HrefPattern, rep);
    assert t + [] == t;
  }

  /** Helper of ProtocolRelativeLinkRewritten: a marker at the start is
      replaced, and the scan resumes after it. */
  lemma LeadingMarkerRewritten(t: string, rep: string)
    ensures ReplaceAll(HrefPattern + t, HrefPattern, rep) == rep + ReplaceAll(t, HrefPattern, rep)
  {
    var s := HrefPattern + t;
    assert s[..|HrefPattern|] == HrefPattern;
    assert s[|HrefPattern|..] == t;
  }

  /** After the first filter every link marker points under the
      preview mount, provided the key itself has no `h` (a key holding a
      link marker would add markers of its own). A hexadecimal digest, the
      key the server intends, has no `h`. */
  lemma LinksPointUnderMount(html: string, key: string)
    requires 'h' !in key
    ensures forall i :: OccursAt(RewriteLinks(html, key), HrefPattern, i) ==>
              StartsWith(RewriteLinks(html, key)[i + |HrefPattern|..], MountInsertion(key))
  {
    HrefReplacementInserts(key);
    assert HrefPattern[1..] == "ref=\"/";
    FollowedByInsertion(html, HrefPattern, MountInsertion(key));
  }

  /** Text without a closing body tag passes the second filter unchanged. */
  lemma InjectScriptUnchangedWithoutBody(html: string)
    requires forall i :: !OccursAt(html, BodyClose, i)
    ensures InjectScript(html) == html
  {
    UnchangedWhenAbsent(html, BodyClose, PrismicScript + BodyClose);
  }

  /** The second filter keeps the number of closing body tags. */
  lemma InjectScriptKeepsBodyCount(html: string)
    ensures Count(InjectScript(html), BodyClose) == Count(html, BodyClose)
  {
    ScriptProtected();
    assert BodyClose[1..] == "/body>";
    InsertionKeepsCount(html, BodyClose, PrismicScript);
  }

  /** After the second filter every closing body tag is immediately preceded
      by the script. */
  lemma ScriptPrecedesEveryBodyClose(html: string)
    ensures forall i :: OccursAt(InjectScript(html), BodyClose, i) ==>
              |PrismicScript| <= i && InjectScript(html)[i - |PrismicScript|..i] == PrismicScript
  {
    ScriptProtected();
    assert BodyClose[1..] == "/body>";
    PrecededByInsertion(html, BodyClose, PrismicScript);
  }

  /** The two filters commute when the key has no `<`. */
  lemma FiltersCommute(html: string, key: string)
    requires '<' !in key
    ensures RewriteHtml(html, key) == RewriteLinks(InjectScript(html), key)
  {
    ScriptHasNoH();
    ScriptProtected();
    var r := HrefReplacement(key);
    assert r == "href=\"/builds/preview/" + key + "/";
    assert '<' !in "href=\"/builds/preview/";
    ReplacementsCommute(html, HrefPattern, r, BodyClose, PrismicScript + BodyClose);
  }

  /** A key free of both patterns is not enough for the filters to commute:
      with the key `<`, the link filter turns `href="/body>` into text that
      holds a closing body tag, which the script filter then expands. */
  lemma LtKeyBreaksCommutation()
    ensures var key, html := "<", "href=\"/body>";
      && (forall i :: !OccursAt(key, HrefPattern, i) && !OccursAt(key, BodyClose, i))
      && RewriteHtml(html, key) != RewriteLinks(InjectScript(html), key)
  {
    var key, html := "<", "href=\"/body>";
    var linked := "href=\"/builds/preview/" + BodyClose;
    ScriptSkipsLinkOnly(html);
    LinkFilterMakesBodyClose(html, key);
    SingleBodyCloseCounted(linked);
    LengthAfterReplace(linked, BodyClose, PrismicScript + BodyClose);
    assert |RewriteHtml(html, key)| == |linked| + |PrismicScript|;
    forall i ensures !OccursAt(key, HrefPattern, i) && !OccursAt(key, BodyClose, i) {
    }
  }

  /** Helper of LtKeyBreaksCommutation: text without `<` passes the script
      filter unchanged. */
  lemma ScriptSkipsLinkOnly(html: string)
    requires html == "href=\"/body>"
    ensures InjectScript(html) == html
  {
    FreeTransparent(html, BodyClose);
    SkipTransparent(html, [], BodyClose, PrismicScript + BodyClose);
    assert html + [] == html;
  }

  /** Helper of LtKeyBreaksCommutation: the link filter completes a closing
      body tag out of the key `<` and the text after the marker. */
  lemma LinkFilterMakesBodyClose(html: string, key: string)
    requires html == "href=\"/body>" && key == "<"
    ensures RewriteLinks(html, key) == "href=\"/builds/preview/" + BodyClose
  {
    var tail := "body>";
    assert html == HrefPattern + tail;
    assert html[..|HrefPattern|] == HrefPattern && html[|HrefPattern|..] == tail;
    FreeTransparent(tail, HrefPattern);
    SkipTransparent(tail, [], HrefPattern, HrefReplacement(key));
    assert tail + [] == tail;
    assert RewriteLinks(html, key) == HrefReplacement(key) + tail;
    LtKeyCompletesBodyClose(key, tail);
  }

  /** Helper of LinkFilterMakesBodyClose: the replacement for the key `<`
      ends in `</`. */
  lemma LtKeyCompletesBodyClose(key: string, tail: string)
    requires key == "<" && tail == "body>"
    ensures HrefReplacement(key) + tail == "href=\"/builds/preview/" + BodyClose
  {
    var front, back, prefix := "href=\"", "/builds/preview/", "href=\"/builds/preview/";
    assert HrefReplacement(key) == front + (back + key) + "/";
    assert front + (back + key) + "/" == (front + back) + (key + "/");
    assert front + back == prefix;
    assert key + "/" == "</";
    assert (prefix + "</") + tail == prefix + ("</" + tail);
    assert "</" + tail == BodyClose;
  }

  /** Helper of LtKeyBreaksCommutation: one closing body tag behind text
      without `<` is one match. */
  lemma SingleBodyCloseCounted(linked: string)
    requires linked == "href=\"/builds/preview/" + BodyClose
    ensures Count(linked, BodyClose) == 1
  {
    FreeTransparent("href=\"/builds/preview/", BodyClose);
    SkipTransparent("href=\"/builds/preview/", BodyClose, BodyClose, PrismicScript + BodyClose);
    assert BodyClose[..|BodyClose|] == BodyClose;
    assert BodyClose[|BodyClose|..] == [];
  }

  /** The plugin pass rewrites each HTML file with both filters, in order,
      and leaves every other file as it was. */
  lemma PreviewPluginsPerFile(files: map<string, string>, key: string, isHtml: string -> bool)
    ensures PreviewPlugins(files, key, isHtml).Keys == files.Keys
    ensures forall name :: name in files ==>
              PreviewPlugins(files, key, isHtml)[name] ==
              if isHtml(name) then RewriteHtml(files[name], key) else files[name]
  {
    var linked := ReplacePlugin(files, HrefPattern, HrefReplacement(key), isHtml);
    forall name | name in files
      ensures PreviewPlugins(files, key, isHtml)[name] ==
              if isHtml(name) then RewriteHtml(files[name], key) else files[name]
    {
      assert linked[name] == if isHtml(name) then RewriteLinks(files[name], key) else files[name];
    }
  }

  /** With a key free of `<`, registering the plugins in the other order
      builds the same files. */
  lemma PluginOrderIrrelevant(files: map<string, string>, key: string, isHtml: string -> bool)
    requires '<' !in key
    ensures PreviewPlugins(files, key, isHtml) ==
            ReplacePlugin(ReplacePlugin(files, BodyClose, PrismicScript + BodyClose, isHtml),
                          HrefPattern, HrefReplacement(key), isHtml)
  {
    var a := PreviewPlugins(files, key, isHtml);
    var injected := ReplacePlugin(files, BodyClose, PrismicScript + BodyClose, isHtml);
    var b := ReplacePlugin(injected, HrefPattern, HrefReplacement(key), isHtml);
    PreviewPluginsPerFile(files, key, isHtml);
    forall name | name in files
      ensures a[name] == b[name]
    {
      if isHtml(name) {
        FiltersCommute(files[name], key);
        assert injected[name] == InjectScript(files[name]);
      }
    }
  }
}
